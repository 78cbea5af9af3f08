/** `do_post_insert` and the rotations of rbtree/rb_tree.hpp, as modelled on heaps in
    `RBHeap`, read on the heap of an abstract tree: which case the fix-up takes, what each
    rotation does to the tree, and where the result stops being the heap of a tree. */
module RBPostInsert {
  import opened RBNodes
  import opened RBHeap
  import opened RBShape
  import opened RBView
  import opened RBFixup

  /** The fields of the focus's parent, the focus being reached through `f`. */
  function CtxLinks(c: Ctx, f: RBNode, nill: RBNode): Links
    requires !c.Top?
  {
    if c.InLeft? then Links(c.key, c.color, f, Ptr(c.right, nill), CtxParent(c.up))
    else Links(c.key, c.color, Ptr(c.left, nill), f, CtxParent(c.up))
  }

  /** The fields of a focus and of its parent in the heap of a tree. */
  lemma FocusLinks(h: Heap, c: Ctx, s: Tree, nill: RBNode)
    requires Represents(h, Plug(c, s), null, nill) && s.Node?
    ensures s.ref in h && h[s.ref] == Links(s.key, s.color, Ptr(s.left, nill), Ptr(s.right, nill), CtxParent(c))
    ensures Represents(h, s.left, s.ref, nill) && Represents(h, s.right, s.ref, nill)
    ensures !c.Top? ==> c.ref in h && h[c.ref] == CtxLinks(c, s.ref, nill)
    ensures !c.Top? ==> Represents(h, Side(c), c.ref, nill) && Represents(h, Plug(c.up, Up(c, s)), null, nill)
  {
    PlugRepresents(h, c, s, nill);
  }

  /** A subtree is reached through an object other than `n` when `n` is neither the sentinel
      nor one of its nodes. */
  lemma PtrOther(t: Tree, n: RBNode, nill: RBNode)
    requires n != nill && n !in Nodes(t)
    ensures Ptr(t, nill) != n
  {
  }

  lemma HeapOfFacts(h: Heap, c: Ctx, s: Tree, nill: RBNode)
    requires HeapOf(h, Plug(c, s), nill)
    ensures Closed(h, nill) && Distinct(s) && Nodes(s) <= h.Keys && nill !in Nodes(s)
    ensures CtxNodes(c) <= h.Keys && nill !in CtxNodes(c) && CtxNodes(c) !! Nodes(s)
  {
    HeapOfClosed(h, Plug(c, s), nill);
    PlugNodes(c, s);
    PlugDistinct(c, s);
  }

  // ---------------------------------------------------------------------------------------
  // The case taken

  /** The case of `do_post_insert` by the shape of the tree around the node. */
  function TreeCase(c: Ctx, s: Tree): FixCase
  {
    if c.Top? then AtRoot
    else if c.color == Black then BlackParent
    else if c.up.Top? then NoCase
    else if Side(c.up).Node? && Side(c.up).color == Red then RedUncle
    else if c.InLeft? && c.up.InLeft? then LeftLeft
    else if c.InLeft? then RightLeft
    else if c.up.InRight? then RightRight
    else LeftRight
  }

  /** The colour of the object a subtree is reached through: black for the sentinel. */
  lemma PtrColor(h: Heap, t: Tree, p: RBNode?, nill: RBNode)
    requires Represents(h, t, p, nill) && nill in h && h[nill] == Sentinel
    ensures Ptr(t, nill) in h && (h[Ptr(t, nill)].color == Red <==> t.Node? && t.color == Red)
  {
  }

  /** Around a node with a red parent: its parent, grandparent and uncle as the source reads
      them off the heap. */
  lemma RedParentLinks(h: Heap, c: Ctx, s: Tree, nill: RBNode)
    requires HeapOf(h, Plug(c, s), nill) && FixInv(c, s) && !c.Top? && c.color == Red
    ensures !c.up.Top? && Closed(h, nill) && s.ref in h && s.ref != nill
    ensures h[s.ref].parent == c.ref && c.ref in h && h[c.ref].color == Red
    ensures h[c.ref].parent == c.up.ref && c.up.ref in h
    ensures (s.ref == h[c.ref].left <==> c.InLeft?) && (s.ref == h[c.ref].right <==> c.InRight?)
    ensures (c.ref == h[c.up.ref].left <==> c.up.InLeft?) && (c.ref == h[c.up.ref].right <==> c.up.InRight?)
    ensures Grandparent(h, nill, s.ref) == c.up.ref
    ensures Uncle(h, nill, s.ref) == Ptr(Side(c.up), nill)
    ensures h[Ptr(Side(c.up), nill)].color == Red <==> Side(c.up).Node? && Side(c.up).color == Red
  {
    HeapOfFacts(h, c, s, nill);
    FocusLinks(h, c, s, nill);
    RedParent(c, s);
    var p := Up(c, s);
    HeapOfFacts(h, c.up, p, nill);
    FocusLinks(h, c.up, p, nill);
    PlugDistinct(c.up, p);
    PtrOther(Side(c), s.ref, nill);
    PtrOther(Side(c.up), c.ref, nill);
    PtrColor(h, Side(c.up), c.up.ref, nill);
  }

  /** On the heap of a tree in the state `do_post_insert` expects, the case the source takes
      is the one the tree's shape names (and never none of them). */
  lemma CaseOfTree(h: Heap, c: Ctx, s: Tree, nill: RBNode)
    requires HeapOf(h, Plug(c, s), nill) && FixInv(c, s)
    ensures Closed(h, nill) && s.ref in h && s.ref != nill
    ensures RedHaveParents(h, nill, s.ref)
    ensures CaseOf(h, nill, s.ref) == TreeCase(c, s) != NoCase
  {
    HeapOfFacts(h, c, s, nill);
    FixInvRedParents(h, c, s, nill);
    if !c.Top? && c.color == Red {
      CaseOfRedParent(h, c, s, nill);
    } else {
      FocusLinks(h, c, s, nill);
    }
  }

  lemma CaseOfRedParent(h: Heap, c: Ctx, s: Tree, nill: RBNode)
    requires HeapOf(h, Plug(c, s), nill) && FixInv(c, s) && !c.Top? && c.color == Red
    requires Closed(h, nill) && s.ref in h && s.ref != nill && RedHaveParents(h, nill, s.ref)
    ensures CaseOf(h, nill, s.ref) == TreeCase(c, s) != NoCase
  {
    RedParentLinks(h, c, s, nill);
  }

  // ---------------------------------------------------------------------------------------
  // Recolouring

  /** Colouring one node of a tree's heap gives the heap of the tree with that node
      recoloured. */
  lemma SetColorFocus(h: Heap, c: Ctx, s: Tree, col: Color, nill: RBNode)
    requires HeapOf(h, Plug(c, s), nill) && s.Node?
    ensures Closed(h, nill) && s.ref in h && s.ref != nill
    ensures HeapOf(SetColor(h, s.ref, col), Plug(c, s.(color := col)), nill)
  {
    HeapOfFacts(h, c, s, nill);
    var h' := SetColor(h, s.ref, col);
    var s' := s.(color := col);
    PlugRepresents(h, c, s, nill);
    CtxFrame(h, h', c, s.ref, nill);
    RepresentsFrame(h, h', s.left, s.ref, nill);
    RepresentsFrame(h, h', s.right, s.ref, nill);
    PlugRepresents(h', c, s', nill);
    PlugDistinctReplace(c, s, s');
    PlugNodes(c, s);
    PlugNodes(c, s');
  }

  /** The uncle turned black: the grandparent's other child recoloured. */
  function UncleBlackTree(c: Ctx, p: Tree): (g: Tree)
    requires !c.Top? && Side(c).Node?
    ensures g.Node? && g.ref == c.ref && g.color == c.color
  {
    if c.InLeft? then Node(p, c.ref, c.key, c.color, c.right.(color := Black))
    else Node(c.left.(color := Black), c.ref, c.key, c.color, p)
  }

  lemma UncleBlackHeap(h: Heap, c: Ctx, p: Tree, nill: RBNode)
    requires HeapOf(h, Plug(c, p), nill) && !c.Top? && Side(c).Node?
    ensures Closed(h, nill) && Side(c).ref in h
    ensures HeapOf(SetColor(h, Side(c).ref, Black), Plug(c.up, UncleBlackTree(c, p)), nill)
  {
    var u := Side(c);
    if c.InLeft? {
      SetColorFocus(h, InRight(p, c.ref, c.key, c.color, c.up), u, Black, nill);
    } else {
      SetColorFocus(h, InLeft(c.up, c.ref, c.key, c.color, p), u, Black, nill);
    }
  }

  /** The recolouring of the red-uncle case (rb_tree.hpp:143-145) on the heap of a tree is
      the recolouring of the tree. */
  lemma RecolourHeap(h: Heap, c: Ctx, s: Tree, nill: RBNode)
    requires HeapOf(h, Plug(c, s), nill) && FixInv(c, s) && TreeCase(c, s) == RedUncle
    ensures Closed(h, nill) && s.ref in h && s.ref != nill && RedHaveParents(h, nill, s.ref)
    ensures CaseOf(h, nill, s.ref) == RedUncle
    ensures HeapOf(RecolourUp(h, nill, s.ref), Plug(c.up.up, RecolourTree(c, s)), nill)
  {
    CaseOfTree(h, c, s, nill);
    RedParentLinks(h, c, s, nill);
    var x := s.ref;
    var c1 := c.up;
    var p' := Up(c.(color := Black), s);
    var h1 := SetColor(h, c.ref, Black);
    SetColorFocus(h, c1, Up(c, s), Black, nill);
    UncleBlackHeap(h1, c1, p', nill);
    var gs := UncleBlackTree(c1, p');
    var h2 := SetColor(h1, Side(c1).ref, Black);
    SetColorFocus(h2, c1.up, gs, Red, nill);
    RecolourUpIs(h, nill, x, c.ref, Side(c1).ref, c1.ref);
    assert gs.(color := Red) == RecolourTree(c, s);
  }

  /** The three writes of the red-uncle case, by the objects they go to. */
  lemma RecolourUpIs(h: Heap, nill: RBNode, x: RBNode, p: RBNode, u: RBNode, g: RBNode)
    requires Closed(h, nill) && x in h && x != nill && RedHaveParents(h, nill, x)
    requires CaseOf(h, nill, x) == RedUncle
    requires p == h[x].parent && g == Grandparent(h, nill, x) && u == Uncle(h, nill, x)
    ensures p in h && u in h && g in h
    ensures RecolourUp(h, nill, x) == SetColor(SetColor(SetColor(h, p, Black), u, Black), g, Red)
  {
  }

  // ---------------------------------------------------------------------------------------
  // Rotations

  /** A subtree whose root has been given a new parent, nothing else in it changing. */
  lemma Reparent(h: Heap, h': Heap, t: Tree, p: RBNode?, p': RBNode?, nill: RBNode)
    requires Represents(h, t, p, nill) && Distinct(t)
    requires t.Node? ==> t.ref in h' && h'[t.ref] == h[t.ref].(parent := p')
    requires Agree(h, h', Nodes(t) - {Ptr(t, nill)})
    ensures Represents(h', t, p', nill)
  {
    if t.Node? {
      AgreeSubset(h, h', Nodes(t) - {t.ref}, Nodes(t.left));
      AgreeSubset(h, h', Nodes(t) - {t.ref}, Nodes(t.right));
      RepresentsFrame(h, h', t.left, t.ref, nill);
      RepresentsFrame(h, h', t.right, t.ref, nill);
    }
  }

  /** A context whose first node now leads to another focus, nothing else in it changing. */
  lemma Refocus(h: Heap, h': Heap, c: Ctx, f: RBNode, f': RBNode, t: Tree, nill: RBNode)
    requires RepresentsCtx(h, c, f, nill) && Distinct(Plug(c, t))
    requires !c.Top? ==> c.ref in h' && h'[c.ref] == CtxLinks(c, f', nill)
    requires !c.Top? ==> Agree(h, h', CtxNodes(c.up) + Nodes(Side(c)))
    ensures RepresentsCtx(h', c, f', nill)
  {
    if !c.Top? {
      PlugDistinct(c.up, Up(c, t));
      AgreeSubset(h, h', CtxNodes(c.up) + Nodes(Side(c)), Nodes(Side(c)));
      AgreeSubset(h, h', CtxNodes(c.up) + Nodes(Side(c)), CtxNodes(c.up));
      RepresentsFrame(h, h', Side(c), c.ref, nill);
      CtxFrame(h, h', c.up, c.ref, nill);
    }
  }

  /** The fields `rotate_left(n)` writes when `n`, its parent `fa`, its left child `yp` and
      its grandparent `gp` are different objects. */
  lemma RotateLeftWrites(h: Heap, root: RBNode?, n: RBNode, nill: RBNode, fa: RBNode, gp: RBNode?, yp: RBNode)
    requires Closed(h, nill) && n in h && n != nill
    requires h[n].parent == fa && h[fa].parent == gp && h[n].left == yp
    requires fa != n && yp != fa && yp != n && gp != fa && gp != n && gp != yp
    ensures fa in h && yp in h && (gp != null ==> gp in h)
    ensures var h' := RotateLeft(h, root, n, nill).0;
      h'[n] == h[n].(left := fa, parent := gp) &&
      h'[fa] == h[fa].(right := yp, parent := n) &&
      h'[yp] == (if yp != nill then h[yp].(parent := fa) else h[yp]) &&
      (gp != null ==> h'[gp] == if h[gp].left == fa then h[gp].(left := n) else h[gp].(right := n)) &&
      forall m {:trigger h'[m]} {:trigger h[m]} :: m in h && m != n && m != fa && m != yp && m != gp ==> h'[m] == h[m]
    ensures RotateLeft(h, root, n, nill).1 == if root == fa then n else root
  {
    RotateLeftIs(h, root, n, nill, fa, gp, yp);
  }

  /** The fields `rotate_left(n)` writes, `n` being the right child of `fa`, with the left
      subtree `b`, and `fa` being in context `c`. */
  lemma RotateLeftFields(h: Heap, root: RBNode?, c: Ctx, a: Tree, fa: RBNode, kf: int, cf: Color,
                         b: Tree, n: RBNode, kn: int, cn: Color, t: Tree, nill: RBNode)
    requires HeapOf(h, Plug(c, Node(a, fa, kf, cf, Node(b, n, kn, cn, t))), nill)
    ensures Closed(h, nill) && n in h && n != nill
    ensures var h' := RotateLeft(h, root, n, nill).0;
      h'[n] == Links(kn, cn, fa, Ptr(t, nill), CtxParent(c)) &&
      h'[fa] == Links(kf, cf, Ptr(a, nill), Ptr(b, nill), n) &&
      (b.Node? ==> h'[b.ref] == h[b.ref].(parent := fa)) && h'[nill] == h[nill] &&
      (!c.Top? ==> h'[c.ref] == CtxLinks(c, n, nill)) &&
      forall m {:trigger h'[m]} {:trigger h[m]} :: m in h && m != n && m != fa && m != Ptr(b, nill) && m != CtxParent(c) ==> h'[m] == h[m]
    ensures RotateLeft(h, root, n, nill).1 == if root == fa then n else root
  {
    var g := Node(a, fa, kf, cf, Node(b, n, kn, cn, t));
    HeapOfFacts(h, c, g, nill);
    FocusLinks(h, c, g, nill);
    assert h[n] == Links(kn, cn, Ptr(b, nill), Ptr(t, nill), fa);
    PtrOther(b, fa, nill);
    PtrOther(b, n, nill);
    if !c.Top? {
      PtrOther(Side(c), fa, nill);
    }
    RotateLeftWrites(h, root, n, nill, fa, CtxParent(c), Ptr(b, nill));
  }

  /** The objects of a context other than its first node: disjoint from that node and
      from the focus. */
  lemma CtxRest(c: Ctx, t: Tree)
    requires Distinct(Plug(c, t)) && !c.Top?
    ensures c.ref !in CtxNodes(c.up) + Nodes(Side(c))
    ensures CtxNodes(c) == CtxNodes(c.up) + {c.ref} + Nodes(Side(c))
    ensures (CtxNodes(c.up) + Nodes(Side(c))) !! Nodes(t)
  {
    PlugDistinct(c.up, Up(c, t));
    PlugDistinct(c, t);
  }

  /** The subtree `rotate_left(n)` builds is represented in the heap it leaves. */
  lemma RotatedLeftRepresents(h: Heap, h': Heap, p: RBNode?, a: Tree, fa: RBNode, kf: int, cf: Color,
                              b: Tree, n: RBNode, kn: int, cn: Color, t: Tree, nill: RBNode)
    requires Represents(h, Node(a, fa, kf, cf, Node(b, n, kn, cn, t)), p, nill)
    requires Distinct(Node(a, fa, kf, cf, Node(b, n, kn, cn, t)))
    requires nill !in Nodes(Node(a, fa, kf, cf, Node(b, n, kn, cn, t)))
    requires n in h' && h'[n] == Links(kn, cn, fa, Ptr(t, nill), p)
    requires fa in h' && h'[fa] == Links(kf, cf, Ptr(a, nill), Ptr(b, nill), n)
    requires b.Node? ==> b.ref in h && b.ref in h' && h'[b.ref] == h[b.ref].(parent := fa)
    requires Agree(h, h', Nodes(a) + Nodes(t) + (Nodes(b) - {Ptr(b, nill)}))
    ensures Represents(h', Node(Node(a, fa, kf, cf, b), n, kn, cn, t), p, nill)
  {
    RepresentsFrame(h, h', a, fa, nill);
    Reparent(h, h', b, n, fa, nill);
    RepresentsFrame(h, h', t, n, nill);
  }

  /** A heap that changes at most the four nodes a rotation writes agrees with the old one on
      any set of nodes avoiding them. */
  lemma AgreeAway(h: Heap, h': Heap, s: set<RBNode>, n: RBNode, fa: RBNode, e: RBNode, p: RBNode?)
    requires h'.Keys == h.Keys && s <= h.Keys
    requires forall m {:trigger h'[m]} {:trigger h[m]} :: m in h && m != n && m != fa && m != e && m != p ==> h'[m] == h[m]
    requires n !in s && fa !in s && e !in s && forall m :: m in s ==> m != p
    ensures Agree(h, h', s)
  {
  }

  /** A heap holding the fields `rotate_left(n)` writes represents the rotated tree. */
  lemma RotatedLeftPlug(h: Heap, h': Heap, c: Ctx, a: Tree, fa: RBNode, kf: int, cf: Color,
                        b: Tree, n: RBNode, kn: int, cn: Color, t: Tree, nill: RBNode)
    requires HeapOf(h, Plug(c, Node(a, fa, kf, cf, Node(b, n, kn, cn, t))), nill)
    requires h'.Keys == h.Keys
    requires n in h' && h'[n] == Links(kn, cn, fa, Ptr(t, nill), CtxParent(c))
    requires fa in h' && h'[fa] == Links(kf, cf, Ptr(a, nill), Ptr(b, nill), n)
    requires b.Node? ==> b.ref in h && b.ref in h' && h'[b.ref] == h[b.ref].(parent := fa)
    requires !c.Top? ==> c.ref in h' && h'[c.ref] == CtxLinks(c, n, nill)
    requires forall m {:trigger h'[m]} {:trigger h[m]} :: m in h && m != n && m != fa && m != Ptr(b, nill) && m != CtxParent(c) ==> h'[m] == h[m]
    ensures Represents(h', Plug(c, Node(Node(a, fa, kf, cf, b), n, kn, cn, t)), null, nill)
  {
    var g := Node(a, fa, kf, cf, Node(b, n, kn, cn, t));
    var g' := Node(Node(a, fa, kf, cf, b), n, kn, cn, t);
    HeapOfFacts(h, c, g, nill);
    PlugRepresents(h, c, g, nill);
    var e := Ptr(b, nill);
    AgreeAway(h, h', Nodes(a) + Nodes(t) + (Nodes(b) - {e}), n, fa, e, CtxParent(c));
    RotatedLeftRepresents(h, h', CtxParent(c), a, fa, kf, cf, b, n, kn, cn, t, nill);
    if !c.Top? {
      CtxRest(c, g);
      AgreeAway(h, h', CtxNodes(c.up) + Nodes(Side(c)), n, fa, e, CtxParent(c));
    }
    Refocus(h, h', c, fa, n, g, nill);
    PlugRepresents(h', c, g', nill);
  }

  /** A heap holding the fields `rotate_left(n)` writes is the heap of the rotated tree. */
  lemma RotatedLeftHeap(h: Heap, h': Heap, c: Ctx, a: Tree, fa: RBNode, kf: int, cf: Color,
                        b: Tree, n: RBNode, kn: int, cn: Color, t: Tree, nill: RBNode)
    requires HeapOf(h, Plug(c, Node(a, fa, kf, cf, Node(b, n, kn, cn, t))), nill)
    requires h'.Keys == h.Keys && nill in h && h'[nill] == h[nill]
    requires Represents(h', Plug(c, Node(Node(a, fa, kf, cf, b), n, kn, cn, t)), null, nill)
    ensures HeapOf(h', Plug(c, Node(Node(a, fa, kf, cf, b), n, kn, cn, t)), nill)
  {
    var g := Node(a, fa, kf, cf, Node(b, n, kn, cn, t));
    var g' := Node(Node(a, fa, kf, cf, b), n, kn, cn, t);
    PlugDistinct(c, g);
    RotationDistinct(a, b, t, fa, n, kf, kn, kf, kn, cf, cn, cf, cn);
    PlugDistinctReplace(c, g, g');
    PlugNodes(c, g);
    PlugNodes(c, g');
  }

  /** `rotate_left(n)` on the heap of a tree, `n` being a right child, is the left rotation
      of the tree at `n`'s parent. */
  lemma RotateLeftView(h: Heap, root: RBNode?, c: Ctx, a: Tree, fa: RBNode, kf: int, cf: Color,
                       b: Tree, n: RBNode, kn: int, cn: Color, t: Tree, nill: RBNode)
    requires HeapOf(h, Plug(c, Node(a, fa, kf, cf, Node(b, n, kn, cn, t))), nill)
    requires root == RootOf(Plug(c, Node(a, fa, kf, cf, Node(b, n, kn, cn, t))))
    ensures Closed(h, nill) && n in h && n != nill
    ensures var r := RotateLeft(h, root, n, nill);
      var t' := Plug(c, Node(Node(a, fa, kf, cf, b), n, kn, cn, t));
      HeapOf(r.0, t', nill) && r.1 == RootOf(t')
  {
    var g := Node(a, fa, kf, cf, Node(b, n, kn, cn, t));
    var g' := Node(Node(a, fa, kf, cf, b), n, kn, cn, t);
    RotateLeftFields(h, root, c, a, fa, kf, cf, b, n, kn, cn, t, nill);
    HeapOfFacts(h, c, g, nill);
    RotatedLeftPlug(h, RotateLeft(h, root, n, nill).0, c, a, fa, kf, cf, b, n, kn, cn, t, nill);
    RotatedLeftHeap(h, RotateLeft(h, root, n, nill).0, c, a, fa, kf, cf, b, n, kn, cn, t, nill);
    if !c.Top? {
      PlugRoot(c, g, g');
    }
  }

  /** The fields `rotate_right(n)` as written writes, `yp` being `n->left_`
      (rb_tree.hpp:233): `fa->left_` and `n->left_` both end up `yp`. */
  lemma RotateRightWrites(h: Heap, root: RBNode?, n: RBNode, nill: RBNode, fa: RBNode, gp: RBNode?, yp: RBNode)
    requires Closed(h, nill) && n in h && n != nill
    requires h[n].parent == fa && h[fa].parent == gp && h[n].left == yp
    requires fa != n && yp != fa && yp != n && gp != fa && gp != n && gp != yp
    ensures fa in h && yp in h && (gp != null ==> gp in h)
    ensures var h' := RotateRight(h, root, n, nill).0;
      h'[n] == h[n].(right := fa, parent := gp) &&
      h'[fa] == h[fa].(left := yp, parent := n) &&
      h'[yp] == (if yp != nill then h[yp].(parent := fa) else h[yp]) &&
      (gp != null ==> h'[gp] == if h[gp].left == fa then h[gp].(left := n) else h[gp].(right := n)) &&
      forall m {:trigger h'[m]} {:trigger h[m]} :: m in h && m != n && m != fa && m != yp && m != gp ==> h'[m] == h[m]
    ensures RotateRight(h, root, n, nill).1 == if root == fa then n else root
  {
    RotateRightIs(h, root, n, nill, fa, gp, yp);
  }

  /** The fields the mirror image of `rotate_left` writes, `yp` being `n->right_`. */
  lemma MirrorRotateRightWrites(h: Heap, root: RBNode?, n: RBNode, nill: RBNode, fa: RBNode, gp: RBNode?, yp: RBNode)
    requires Closed(h, nill) && n in h && n != nill
    requires h[n].parent == fa && h[fa].parent == gp && h[n].right == yp
    requires fa != n && yp != fa && yp != n && gp != fa && gp != n && gp != yp
    ensures fa in h && yp in h && (gp != null ==> gp in h)
    ensures var h' := MirrorRotateRight(h, root, n, nill).0;
      h'[n] == h[n].(right := fa, parent := gp) &&
      h'[fa] == h[fa].(left := yp, parent := n) &&
      h'[yp] == (if yp != nill then h[yp].(parent := fa) else h[yp]) &&
      (gp != null ==> h'[gp] == if h[gp].left == fa then h[gp].(left := n) else h[gp].(right := n)) &&
      forall m {:trigger h'[m]} {:trigger h[m]} :: m in h && m != n && m != fa && m != yp && m != gp ==> h'[m] == h[m]
    ensures MirrorRotateRight(h, root, n, nill).1 == if root == fa then n else root
  {
    MirrorRotateRightIs(h, root, n, nill, fa, gp, yp);
  }

  /** After `rotate_right(n)` as written, `fa->left_` is `n`'s old left child. */
  lemma RotateRightParentLeft(h: Heap, root: RBNode?, n: RBNode, nill: RBNode)
    requires Closed(h, nill) && n in h && n != nill
    requires h[n].parent != null && h[n].parent != n && Grandparent(h, nill, n) != h[n].parent
    ensures RotateRight(h, root, n, nill).0[h[n].parent].left == h[n].left
  {
    var fa := h[n].parent;
    RotateRightIs(h, root, n, nill, fa, h[fa].parent, h[n].left);
  }

  /** After the mirror image of `rotate_left(n)`, `fa->left_` is `n`'s old right child. */
  lemma MirrorRotateRightParentLeft(h: Heap, root: RBNode?, n: RBNode, nill: RBNode)
    requires Closed(h, nill) && n in h && n != nill
    requires h[n].parent != null && h[n].parent != n && Grandparent(h, nill, n) != h[n].parent
    ensures MirrorRotateRight(h, root, n, nill).0[h[n].parent].left == h[n].right
  {
    var fa := h[n].parent;
    MirrorRotateRightIs(h, root, n, nill, fa, h[fa].parent, h[n].right);
  }

  /** `rotate_right(n)` as written and the mirror image of `rotate_left` agree exactly when
      `n`'s two children are the same object, for instance both the sentinel. */
  lemma RotateRightIsMirror(h: Heap, root: RBNode?, n: RBNode, nill: RBNode)
    requires Closed(h, nill) && n in h && n != nill
    requires h[n].parent != null && h[n].parent != n && Grandparent(h, nill, n) != h[n].parent
    ensures RotateRight(h, root, n, nill) == MirrorRotateRight(h, root, n, nill) <==> h[n].left == h[n].right
  {
    RotateRightParentLeft(h, root, n, nill);
    MirrorRotateRightParentLeft(h, root, n, nill);
  }

  /** The fields `rotate_right(n)` as written leaves, `n` being the left child of `fa` with
      subtrees `a` and `b`, in the heap of a tree. */
  lemma RotateRightFields(h: Heap, root: RBNode?, c: Ctx, a: Tree, n: RBNode, kn: int, cn: Color,
                          b: Tree, fa: RBNode, kf: int, cf: Color, t: Tree, nill: RBNode)
    requires HeapOf(h, Plug(c, Node(Node(a, n, kn, cn, b), fa, kf, cf, t)), nill)
    ensures Closed(h, nill) && n in h && n != nill
    ensures var h' := RotateRight(h, root, n, nill).0;
      h'[n] == Links(kn, cn, Ptr(a, nill), fa, CtxParent(c)) &&
      h'[fa] == Links(kf, cf, Ptr(a, nill), Ptr(t, nill), n) &&
      (a.Node? ==> h'[a.ref] == h[a.ref].(parent := fa)) && h'[nill] == h[nill] &&
      (!c.Top? ==> h'[c.ref] == CtxLinks(c, n, nill)) &&
      forall m {:trigger h'[m]} {:trigger h[m]} :: m in h && m != n && m != fa && m != Ptr(a, nill) && m != CtxParent(c) ==> h'[m] == h[m]
    ensures RotateRight(h, root, n, nill).1 == if root == fa then n else root
  {
    var g := Node(Node(a, n, kn, cn, b), fa, kf, cf, t);
    HeapOfFacts(h, c, g, nill);
    FocusLinks(h, c, g, nill);
    assert h[n] == Links(kn, cn, Ptr(a, nill), Ptr(b, nill), fa);
    PtrOther(a, fa, nill);
    PtrOther(a, n, nill);
    if !c.Top? {
      PtrOther(Side(c), fa, nill);
    }
    RotateRightWrites(h, root, n, nill, fa, CtxParent(c), Ptr(a, nill));
  }

  /** Two different objects of the heap that have the same real node as a child. */
  ghost predicate SharedChild(h: Heap, nill: RBNode, m1: RBNode, m2: RBNode, ch: RBNode)
  {
    m1 in h && m2 in h && m1 != m2 && ch != nill &&
    (h[m1].left == ch || h[m1].right == ch) && (h[m2].left == ch || h[m2].right == ch)
  }

  ghost predicate HasSharedChild(h: Heap, nill: RBNode)
  {
    exists m1, m2, ch {:trigger SharedChild(h, nill, m1, m2, ch)} :: m1 in h && m2 in h && ch in h && SharedChild(h, nill, m1, m2, ch)
  }

  lemma SharedWitness(h: Heap, nill: RBNode, m1: RBNode, m2: RBNode, ch: RBNode)
    requires Closed(h, nill) && SharedChild(h, nill, m1, m2, ch)
    ensures HasSharedChild(h, nill)
  {
    assert m1 != nill && ch in h;
  }

  /** In the heap of a tree, a real node is the child of its parent only. */
  lemma {:induction false} ChildParent(h: Heap, t: Tree, p: RBNode?, nill: RBNode, m: RBNode, ch: RBNode)
    requires Represents(h, t, p, nill) && m in Nodes(t) && ch != nill
    requires m in h && (h[m].left == ch || h[m].right == ch)
    ensures ch in h && h[ch].parent == m
  {
    match t
    case Leaf =>
    case Node(l, n, k, c, r) =>
      if m == n {
      } else if m in Nodes(l) {
        ChildParent(h, l, n, nill, m, ch);
      } else {
        ChildParent(h, r, n, nill, m, ch);
      }
  }

  /** The heap of a tree shares no child. */
  lemma HeapOfUnshared(h: Heap, t: Tree, nill: RBNode)
    requires HeapOf(h, t, nill)
    ensures !HasSharedChild(h, nill)
  {
    if HasSharedChild(h, nill) {
      var m1, m2, ch :| m1 in h && m2 in h && ch in h && SharedChild(h, nill, m1, m2, ch);
      assert m1 in Nodes(t) && m2 in Nodes(t);
      ChildParent(h, t, null, nill, m1, ch);
      ChildParent(h, t, null, nill, m2, ch);
    }
  }

  /** `rotate_right(n)` as written, when `n`'s left subtree `a` is not empty, leaves its root
      the left child of both `n` and `fa`; when it agrees with the mirror image of
      `rotate_left`, both of `n`'s subtrees are empty. */
  lemma RotateRightAsWritten(h: Heap, root: RBNode?, c: Ctx, a: Tree, n: RBNode, kn: int, cn: Color,
                             b: Tree, fa: RBNode, kf: int, cf: Color, t: Tree, nill: RBNode)
    requires HeapOf(h, Plug(c, Node(Node(a, n, kn, cn, b), fa, kf, cf, t)), nill)
    ensures Closed(h, nill) && n in h && n != nill
    ensures a.Node? ==> SharedChild(RotateRight(h, root, n, nill).0, nill, n, fa, a.ref)
    ensures RotateRight(h, root, n, nill) == MirrorRotateRight(h, root, n, nill) <==> a.Leaf? && b.Leaf?
  {
    var g := Node(Node(a, n, kn, cn, b), fa, kf, cf, t);
    RotateRightFields(h, root, c, a, n, kn, cn, b, fa, kf, cf, t, nill);
    HeapOfFacts(h, c, g, nill);
    FocusLinks(h, c, g, nill);
    assert h[n] == Links(kn, cn, Ptr(a, nill), Ptr(b, nill), fa);
    if !c.Top? {
      PtrOther(Side(c), fa, nill);
    }
    RotateRightIsMirror(h, root, n, nill);
  }

  /** The fields the mirror image of `rotate_left` leaves, `n` being the left child of `fa`
      with subtrees `a` and `b`, in the heap of a tree. */
  lemma MirrorRotateRightFields(h: Heap, root: RBNode?, c: Ctx, a: Tree, n: RBNode, kn: int, cn: Color,
                                b: Tree, fa: RBNode, kf: int, cf: Color, t: Tree, nill: RBNode)
    requires HeapOf(h, Plug(c, Node(Node(a, n, kn, cn, b), fa, kf, cf, t)), nill)
    ensures Closed(h, nill) && n in h && n != nill
    ensures var h' := MirrorRotateRight(h, root, n, nill).0;
      h'[n] == Links(kn, cn, Ptr(a, nill), fa, CtxParent(c)) &&
      h'[fa] == Links(kf, cf, Ptr(b, nill), Ptr(t, nill), n) &&
      (b.Node? ==> h'[b.ref] == h[b.ref].(parent := fa)) && h'[nill] == h[nill] &&
      (!c.Top? ==> h'[c.ref] == CtxLinks(c, n, nill)) &&
      forall m {:trigger h'[m]} {:trigger h[m]} :: m in h && m != n && m != fa && m != Ptr(b, nill) && m != CtxParent(c) ==> h'[m] == h[m]
    ensures MirrorRotateRight(h, root, n, nill).1 == if root == fa then n else root
  {
    var g := Node(Node(a, n, kn, cn, b), fa, kf, cf, t);
    HeapOfFacts(h, c, g, nill);
    FocusLinks(h, c, g, nill);
    assert h[n] == Links(kn, cn, Ptr(a, nill), Ptr(b, nill), fa);
    PtrOther(b, fa, nill);
    PtrOther(b, n, nill);
    if !c.Top? {
      PtrOther(Side(c), fa, nill);
    }
    MirrorRotateRightWrites(h, root, n, nill, fa, CtxParent(c), Ptr(b, nill));
  }

  /** The subtree a right rotation builds is represented in the heap it leaves. */
  lemma RotatedRightRepresents(h: Heap, h': Heap, p: RBNode?, a: Tree, n: RBNode, kn: int, cn: Color,
                               b: Tree, fa: RBNode, kf: int, cf: Color, t: Tree, nill: RBNode)
    requires Represents(h, Node(Node(a, n, kn, cn, b), fa, kf, cf, t), p, nill)
    requires Distinct(Node(Node(a, n, kn, cn, b), fa, kf, cf, t))
    requires nill !in Nodes(Node(Node(a, n, kn, cn, b), fa, kf, cf, t))
    requires n in h' && h'[n] == Links(kn, cn, Ptr(a, nill), fa, p)
    requires fa in h' && h'[fa] == Links(kf, cf, Ptr(b, nill), Ptr(t, nill), n)
    requires b.Node? ==> b.ref in h && b.ref in h' && h'[b.ref] == h[b.ref].(parent := fa)
    requires Agree(h, h', Nodes(a) + Nodes(t) + (Nodes(b) - {Ptr(b, nill)}))
    ensures Represents(h', Node(a, n, kn, cn, Node(b, fa, kf, cf, t)), p, nill)
  {
    RepresentsFrame(h, h', a, n, nill);
    Reparent(h, h', b, n, fa, nill);
    RepresentsFrame(h, h', t, fa, nill);
  }

  /** A heap holding the fields a right rotation writes represents the rotated tree. */
  lemma RotatedRightPlug(h: Heap, h': Heap, c: Ctx, a: Tree, n: RBNode, kn: int, cn: Color,
                         b: Tree, fa: RBNode, kf: int, cf: Color, t: Tree, nill: RBNode)
    requires HeapOf(h, Plug(c, Node(Node(a, n, kn, cn, b), fa, kf, cf, t)), nill)
    requires h'.Keys == h.Keys
    requires n in h' && h'[n] == Links(kn, cn, Ptr(a, nill), fa, CtxParent(c))
    requires fa in h' && h'[fa] == Links(kf, cf, Ptr(b, nill), Ptr(t, nill), n)
    requires b.Node? ==> b.ref in h && b.ref in h' && h'[b.ref] == h[b.ref].(parent := fa)
    requires !c.Top? ==> c.ref in h' && h'[c.ref] == CtxLinks(c, n, nill)
    requires forall m {:trigger h'[m]} {:trigger h[m]} :: m in h && m != n && m != fa && m != Ptr(b, nill) && m != CtxParent(c) ==> h'[m] == h[m]
    ensures Represents(h', Plug(c, Node(a, n, kn, cn, Node(b, fa, kf, cf, t))), null, nill)
  {
    var g := Node(Node(a, n, kn, cn, b), fa, kf, cf, t);
    var g' := Node(a, n, kn, cn, Node(b, fa, kf, cf, t));
    HeapOfFacts(h, c, g, nill);
    PlugRepresents(h, c, g, nill);
    var e := Ptr(b, nill);
    AgreeAway(h, h', Nodes(a) + Nodes(t) + (Nodes(b) - {e}), n, fa, e, CtxParent(c));
    RotatedRightRepresents(h, h', CtxParent(c), a, n, kn, cn, b, fa, kf, cf, t, nill);
    if !c.Top? {
      CtxRest(c, g);
      AgreeAway(h, h', CtxNodes(c.up) + Nodes(Side(c)), n, fa, e, CtxParent(c));
    }
    Refocus(h, h', c, fa, n, g, nill);
    PlugRepresents(h', c, g', nill);
  }

  /** A heap representing the right rotation of a tree's heap is the heap of the rotated
      tree. */
  lemma RotatedRightHeap(h: Heap, h': Heap, c: Ctx, a: Tree, n: RBNode, kn: int, cn: Color,
                         b: Tree, fa: RBNode, kf: int, cf: Color, t: Tree, nill: RBNode)
    requires HeapOf(h, Plug(c, Node(Node(a, n, kn, cn, b), fa, kf, cf, t)), nill)
    requires h'.Keys == h.Keys && nill in h && h'[nill] == h[nill]
    requires Represents(h', Plug(c, Node(a, n, kn, cn, Node(b, fa, kf, cf, t))), null, nill)
    ensures HeapOf(h', Plug(c, Node(a, n, kn, cn, Node(b, fa, kf, cf, t))), nill)
  {
    var g := Node(Node(a, n, kn, cn, b), fa, kf, cf, t);
    var g' := Node(a, n, kn, cn, Node(b, fa, kf, cf, t));
    PlugDistinct(c, g);
    RotationDistinct(a, b, t, n, fa, kn, kf, kn, kf, cn, cf, cn, cf);
    PlugDistinctReplace(c, g, g');
    PlugNodes(c, g);
    PlugNodes(c, g');
  }

  /** The mirror image of `rotate_left(n)` on the heap of a tree, `n` being a left child, is
      the right rotation of the tree at `n`'s parent. */
  lemma MirrorRotateRightView(h: Heap, root: RBNode?, c: Ctx, a: Tree, n: RBNode, kn: int, cn: Color,
                              b: Tree, fa: RBNode, kf: int, cf: Color, t: Tree, nill: RBNode)
    requires HeapOf(h, Plug(c, Node(Node(a, n, kn, cn, b), fa, kf, cf, t)), nill)
    requires root == RootOf(Plug(c, Node(Node(a, n, kn, cn, b), fa, kf, cf, t)))
    ensures Closed(h, nill) && n in h && n != nill
    ensures var r := MirrorRotateRight(h, root, n, nill);
      var t' := Plug(c, Node(a, n, kn, cn, Node(b, fa, kf, cf, t)));
      HeapOf(r.0, t', nill) && r.1 == RootOf(t')
  {
    var g := Node(Node(a, n, kn, cn, b), fa, kf, cf, t);
    var g' := Node(a, n, kn, cn, Node(b, fa, kf, cf, t));
    MirrorRotateRightFields(h, root, c, a, n, kn, cn, b, fa, kf, cf, t, nill);
    HeapOfFacts(h, c, g, nill);
    RotatedRightPlug(h, MirrorRotateRight(h, root, n, nill).0, c, a, n, kn, cn, b, fa, kf, cf, t, nill);
    RotatedRightHeap(h, MirrorRotateRight(h, root, n, nill).0, c, a, n, kn, cn, b, fa, kf, cf, t, nill);
    if !c.Top? {
      PlugRoot(c, g, g');
    }
  }
}
