/** The cases of `do_post_insert` (rb_tree.hpp:123-185) on abstract trees: what each case
    would turn the tree into when its rotations are genuine rotations, and the red-black
    rules each result satisfies.  `RBPostInsert` connects these trees to the heap. */
module RBFixup {
  import opened RBNodes
  import opened RBShape

  /** The red-uncle case (rb_tree.hpp:143-145): parent and uncle black, grandparent red.  The
      result is the grandparent's subtree, to be put back in the grandparent's context. */
  function RecolourTree(c: Ctx, s: Tree): (r: Tree)
    requires !c.Top? && !c.up.Top? && Side(c.up).Node?
    ensures r.Node? && r.ref == c.up.ref && r.color == Red
  {
    var p := Up(c.(color := Black), s);
    var u := Side(c.up).(color := Black);
    if c.up.InLeft? then Node(p, c.up.ref, c.up.key, Red, u) else Node(u, c.up.ref, c.up.key, Red, p)
  }

  /** The right-right case (rb_tree.hpp:169-174): a left rotation at the parent, which
      becomes black and the root of the grandparent's subtree, the grandparent red. */
  function RightRightTree(c: Ctx, s: Tree): (r: Tree)
    requires c.InRight? && c.up.InRight?
    ensures r.Node? && r.ref == c.ref && r.color == Black
  {
    Node(Node(c.up.left, c.up.ref, c.up.key, Red, c.left), c.ref, c.key, Black, s)
  }

  /** The right-left case (rb_tree.hpp:161-167) as a double rotation: the node becomes black
      and the root of the grandparent's subtree, its left subtree going to the grandparent
      and its right subtree to the parent. */
  function RightLeftTree(c: Ctx, s: Tree): (r: Tree)
    requires c.InLeft? && c.up.InRight? && s.Node?
    ensures r.Node? && r.ref == s.ref && r.color == Black
  {
    Node(Node(c.up.left, c.up.ref, c.up.key, Red, s.left), s.ref, s.key, Black,
         Node(s.right, c.ref, c.key, c.color, c.right))
  }

  // ---------------------------------------------------------------------------------------
  // Putting a changed subtree back

  /** The state of the whole tree during the fix-up, the red rule being waived for `e`. */
  predicate Fixing(t: Tree, e: RBNode?)
  {
    Distinct(t) && Ordered(t) && Balanced(t) && RedRuleBut(t, e) && (IsBlack(t) || t.ref == e)
  }

  lemma FixInvFixing(c: Ctx, s: Tree)
    requires s.Node?
    ensures FixInv(c, s) <==> s.color == Red && Fixing(Plug(c, s), s.ref)
  {
  }

  lemma FixingNull(t: Tree)
    ensures Fixing(t, null) <==> Distinct(t) && IsRedBlack(t)
  {
  }

  /** Replacing a subtree by one with the same nodes, keys and black height, obeying the red
      rule but for `e'`, keeps the state of the whole tree, the waiver moving from `e` to
      `e'`. */
  lemma Replug(c: Ctx, g: Tree, g': Tree, e: RBNode?, e': RBNode?)
    requires Fixing(Plug(c, g), e) && e in Nodes(g) && BlackOr(g, e)
    requires Distinct(g') && Nodes(g') == Nodes(g) && InOrder(g') == InOrder(g)
    requires Balanced(g') && BlackHeight(g') == BlackHeight(g)
    requires RedRuleBut(g', e') && BlackOr(g', e') && (e' == null || e' in Nodes(g))
    requires c.Top? ==> IsBlack(g') || g'.ref == e'
    ensures Fixing(Plug(c, g'), e')
  {
    PlugDistinct(c, g);
    PlugDistinctReplace(c, g, g');
    PlugInOrder(c, g, g');
    ReplugBalanced(c, g, g');
    ReplugRedRule(c, g, g', e, e');
    ReplugRoot(c, g, g', e, e');
  }

  lemma ReplugRoot(c: Ctx, g: Tree, g': Tree, e: RBNode?, e': RBNode?)
    requires Distinct(Plug(c, g)) && (IsBlack(Plug(c, g)) || Plug(c, g).ref == e) && e in Nodes(g)
    requires c.Top? ==> IsBlack(g') || g'.ref == e'
    ensures IsBlack(Plug(c, g')) || Plug(c, g').ref == e'
  {
    if !c.Top? {
      PlugDistinct(c, g);
      PlugNodes(c, g);
      PlugRoot(c, g, g');
    }
  }

  lemma ReplugBalanced(c: Ctx, g: Tree, g': Tree)
    requires Balanced(Plug(c, g))
    requires Balanced(g') && BlackHeight(g') == BlackHeight(g)
    ensures Balanced(Plug(c, g'))
  {
    PlugBalanced(c, g);
    PlugBalanced(c, g');
  }

  lemma ReplugRedRule(c: Ctx, g: Tree, g': Tree, e: RBNode?, e': RBNode?)
    requires RedRuleBut(Plug(c, g), e) && Distinct(Plug(c, g)) && e in Nodes(g) && BlackOr(g, e)
    requires RedRuleBut(g', e') && BlackOr(g', e') && (e' == null || e' in Nodes(g))
    ensures RedRuleBut(Plug(c, g'), e')
  {
    PlugDistinct(c, g);
    PlugRedRule(c, g, e);
    CtxRedRuleElsewhere(c, true, e, e');
    PlugRedRule(c, g', e');
  }

  // ---------------------------------------------------------------------------------------
  // The subtree of the grandparent

  /** A tree's own red root being exempted from the red rule changes nothing inside it. */
  lemma RootExemptionVoid(s: Tree)
    requires s.Node? && s.color == Red && Distinct(s) && RedRuleBut(s, s.ref)
    ensures RedRule(s) && IsBlack(s.left) && IsBlack(s.right)
  {
    assert s.left.Node? ==> s.left.ref in Nodes(s.left);
    assert s.right.Node? ==> s.right.ref in Nodes(s.right);
    RedRuleButElsewhere(s.left, s.ref, null);
    RedRuleButElsewhere(s.right, s.ref, null);
  }

  /** In the state `do_post_insert` expects, a red parent has a black parent (so the
      grandparent exists, as rb_tree.hpp:141 relies on, and is black, as rb_tree.hpp:152
      asserts); the parent's other child and the node's children are black.  The
      grandparent's subtree is distinct, balanced and obeys the red rule but for the node. */
  lemma RedParent(c: Ctx, s: Tree)
    requires FixInv(c, s) && !c.Top? && c.color == Red
    ensures !c.up.Top? && c.up.color == Black
    ensures IsBlack(Side(c)) && RedRule(Side(c)) && RedRule(s)
    ensures IsBlack(s.left) && IsBlack(s.right)
    ensures var g := Up(c.up, Up(c, s));
      Plug(c.up.up, g) == Plug(c, s) && Distinct(g) && Balanced(g) && RedRuleBut(g, s.ref) &&
      s.ref in Nodes(g)
  {
    var p := Up(c, s);
    PlugDistinct(c.up, p);
    PlugDistinct(c, s);
    PlugRedRule(c.up, p, s.ref);
    PlugRedRule(c, s, s.ref);
    RootExemptionVoid(s);
    assert Side(c).Node? ==> Side(c).ref in Nodes(Side(c));
    RedRuleButElsewhere(Side(c), s.ref, null);
    var g := Up(c.up, p);
    PlugDistinct(c.up.up, g);
    PlugBalanced(c.up.up, g);
    PlugRedRule(c.up.up, g, s.ref);
    PlugNodes(c, s);
  }

  /** The recolouring on the grandparent's subtree: same nodes and keys, and still
      distinct. */
  lemma RecolourSameNodes(c: Ctx, s: Tree)
    requires !c.Top? && !c.up.Top? && Side(c.up).Node?
    requires Distinct(Up(c.up, Up(c, s)))
    ensures var g := Up(c.up, Up(c, s)); var g' := RecolourTree(c, s);
      Distinct(g') && Nodes(g') == Nodes(g) && InOrder(g') == InOrder(g)
  {
  }

  /** The recolouring keeps every black height. */
  lemma RecolourBalanced(c: Ctx, s: Tree)
    requires !c.Top? && c.color == Red && !c.up.Top? && c.up.color == Black
    requires Side(c.up).Node? && Side(c.up).color == Red
    requires Balanced(Up(c.up, Up(c, s)))
    ensures var g := Up(c.up, Up(c, s)); var g' := RecolourTree(c, s);
      Balanced(g') && BlackHeight(g') == BlackHeight(g)
  {
  }

  /** After the recolouring, only the grandparent may break the red rule. */
  lemma RecolourRedRule(c: Ctx, s: Tree)
    requires FixInv(c, s) && !c.Top? && c.color == Red
    requires !c.up.Top? && Side(c.up).Node? && Side(c.up).color == Red
    ensures RedRuleBut(RecolourTree(c, s), c.up.ref)
  {
    RedParent(c, s);
    var u := Side(c.up);
    var g := Up(c.up, Up(c, s));
    var gr := c.up.ref;
    assert gr !in Nodes(u) && gr !in Nodes(Side(c)) && gr !in Nodes(s);
    assert s.ref !in Nodes(u);
    assert u.left.Node? ==> u.left.ref in Nodes(u.left);
    assert u.right.Node? ==> u.right.ref in Nodes(u.right);
    RedRuleButElsewhere(u.left, s.ref, gr);
    RedRuleButElsewhere(u.right, s.ref, gr);
    RedRuleButElsewhere(Side(c), null, gr);
    RedRuleButElsewhere(s.left, null, gr);
    RedRuleButElsewhere(s.right, null, gr);
    var p' := Up(c.(color := Black), s);
    assert RedRuleBut(s, gr);
    assert RedRuleBut(p', gr);
    assert RedRuleBut(u.(color := Black), gr);
  }

  /** The red-uncle recolouring keeps the state `do_post_insert` expects, now at the
      grandparent, and changes no key and no node. */
  lemma RecolourFixInv(c: Ctx, s: Tree)
    requires FixInv(c, s) && !c.Top? && c.color == Red
    requires !c.up.Top? && Side(c.up).Node? && Side(c.up).color == Red
    ensures FixInv(c.up.up, RecolourTree(c, s))
    ensures InOrder(Plug(c.up.up, RecolourTree(c, s))) == InOrder(Plug(c, s))
    ensures Nodes(RecolourTree(c, s)) == Nodes(Up(c.up, Up(c, s)))
  {
    RedParent(c, s);
    RecolourSameNodes(c, s);
    RecolourBalanced(c, s);
    RecolourRedRule(c, s);
    var g := Up(c.up, Up(c, s));
    var g' := RecolourTree(c, s);
    Replug(c.up.up, g, g', s.ref, g.ref);
    PlugInOrder(c.up.up, g, g');
  }

  // ---------------------------------------------------------------------------------------
  // The cases that end the fix-up

  /** The node at the root (rb_tree.hpp:127-131): coloured black, the tree is red-black. */
  lemma AtRootRedBlack(s: Tree)
    requires FixInv(Top, s)
    ensures IsRedBlack(s.(color := Black))
  {
    RootExemptionVoid(s);
  }

  /** A black parent (rb_tree.hpp:135-136): the tree is already red-black. */
  lemma BlackParentRedBlack(c: Ctx, s: Tree)
    requires FixInv(c, s) && !c.Top? && c.color == Black
    ensures IsRedBlack(Plug(c, s))
  {
    var p := Up(c, s);
    PlugDistinct(c.up, p);
    PlugRedRule(c.up, p, s.ref);
    RootExemptionVoid(s);
    assert Side(c).Node? ==> Side(c).ref in Nodes(Side(c));
    RedRuleButElsewhere(Side(c), s.ref, null);
    PlugNodes(c, s);
    PlugBalanced(c.up, p);
    assert s.ref in Nodes(p) && RedRuleBut(p, null);
    Replug(c.up, p, p, s.ref, null);
  }

  /** The single rotation of the right-right case on the grandparent's subtree. */
  lemma RightRightLocal(c: Ctx, s: Tree)
    requires c.InRight? && c.color == Red && c.up.InRight? && c.up.color == Black
    requires s.Node? && s.color == Red
    requires IsBlack(Side(c.up)) && IsBlack(Side(c)) && IsBlack(s.left) && IsBlack(s.right)
    requires RedRule(Side(c)) && RedRule(s) && RedRule(Side(c.up))
    requires var g := Up(c.up, Up(c, s)); Distinct(g) && Balanced(g)
    ensures var g := Up(c.up, Up(c, s)); var g' := RightRightTree(c, s);
      Distinct(g') && Nodes(g') == Nodes(g) && InOrder(g') == InOrder(g) &&
      Balanced(g') && BlackHeight(g') == BlackHeight(g) && RedRule(g')
  {
    var u := Side(c.up);
    var g := Up(c.up, Up(c, s));
    var g' := RightRightTree(c, s);
    assert InOrder(g) == InOrder(u) + [c.up.key] + InOrder(c.left) + [c.key] + InOrder(s);
    assert InOrder(g') == InOrder(u) + [c.up.key] + InOrder(c.left) + [c.key] + InOrder(s);
    RotationDistinct(u, c.left, s, c.up.ref, c.ref, c.up.key, c.key, c.up.key, c.key,
                     c.up.color, c.color, Red, Black);
    var p := Up(c, s);
    assert Balanced(p) && BlackHeight(p) == BlackHeight(s) == BlackHeight(c.left);
    assert BlackHeight(u) == BlackHeight(p);
    assert Balanced(g'.left);
  }

  /** The right-right case yields a red-black tree with the same keys and nodes. */
  lemma RightRightRedBlack(c: Ctx, s: Tree)
    requires FixInv(c, s) && c.InRight? && c.color == Red && c.up.InRight?
    requires IsBlack(Side(c.up))
    ensures Distinct(Plug(c.up.up, RightRightTree(c, s)))
    ensures IsRedBlack(Plug(c.up.up, RightRightTree(c, s)))
    ensures InOrder(Plug(c.up.up, RightRightTree(c, s))) == InOrder(Plug(c, s))
    ensures Nodes(RightRightTree(c, s)) == Nodes(Up(c.up, Up(c, s)))
  {
    RedParent(c, s);
    var u := Side(c.up);
    var g := Up(c.up, Up(c, s));
    var g' := RightRightTree(c, s);
    assert u.Node? ==> u.ref in Nodes(u);
    RedRuleButElsewhere(u, s.ref, null);
    RightRightLocal(c, s);
    Replug(c.up.up, g, g', s.ref, null);
    PlugInOrder(c.up.up, g, g');
  }

  /** The double rotation of the right-left case on the grandparent's subtree: the same
      nodes, still distinct, in the same order. */
  lemma RightLeftSame(c: Ctx, s: Tree)
    requires c.InLeft? && c.up.InRight? && s.Node?
    requires Distinct(Up(c.up, Up(c, s)))
    ensures var g := Up(c.up, Up(c, s)); var g' := RightLeftTree(c, s);
      Distinct(g') && Nodes(g') == Nodes(g) && InOrder(g') == InOrder(g)
  {
    RightLeftNodes(c, s);
    var u := Side(c.up);
    var g := Up(c.up, Up(c, s));
    var g' := RightLeftTree(c, s);
    var l, r := InOrder(s.left), InOrder(s.right);
    calc {
      InOrder(g);
      InOrder(u) + [c.up.key] + (InOrder(s) + [c.key] + InOrder(c.right));
      { assert InOrder(s) == l + [s.key] + r; }
      InOrder(u) + [c.up.key] + (l + [s.key] + r + [c.key] + InOrder(c.right));
      (InOrder(u) + [c.up.key] + l) + [s.key] + (r + [c.key] + InOrder(c.right));
      InOrder(g');
    }
  }

  lemma RightLeftNodes(c: Ctx, s: Tree)
    requires c.InLeft? && c.up.InRight? && s.Node?
    requires Distinct(Up(c.up, Up(c, s)))
    ensures var g := Up(c.up, Up(c, s)); var g' := RightLeftTree(c, s);
      Distinct(g') && Nodes(g') == Nodes(g)
  {
    var u := Side(c.up);
    var inner := Node(s.left, s.ref, s.key, s.color, Node(s.right, c.ref, c.key, c.color, c.right));
    RotationDistinct(s.left, s.right, c.right, s.ref, c.ref, s.key, c.key, s.key, c.key,
                     s.color, c.color, s.color, c.color);
    assert Distinct(Node(u, c.up.ref, c.up.key, c.up.color, inner));
    RotationDistinct(u, s.left, Node(s.right, c.ref, c.key, c.color, c.right), c.up.ref, s.ref,
                     c.up.key, s.key, c.up.key, s.key, c.up.color, s.color, Red, Black);
  }

  /** The double rotation of the right-left case keeps the balance and the red rule. */
  lemma RightLeftLocal(c: Ctx, s: Tree)
    requires c.InLeft? && c.color == Red && c.up.InRight? && c.up.color == Black
    requires s.Node? && s.color == Red
    requires IsBlack(Side(c.up)) && IsBlack(Side(c)) && IsBlack(s.left) && IsBlack(s.right)
    requires RedRule(Side(c)) && RedRule(s) && RedRule(Side(c.up))
    requires var g := Up(c.up, Up(c, s)); Distinct(g) && Balanced(g)
    ensures var g := Up(c.up, Up(c, s)); var g' := RightLeftTree(c, s);
      Distinct(g') && Nodes(g') == Nodes(g) && InOrder(g') == InOrder(g) &&
      Balanced(g') && BlackHeight(g') == BlackHeight(g) && RedRule(g')
  {
    RightLeftSame(c, s);
    var u := Side(c.up);
    var g' := RightLeftTree(c, s);
    var p := Up(c, s);
    assert Balanced(p) && Balanced(s) && BlackHeight(p) == BlackHeight(s) == BlackHeight(s.left);
    assert BlackHeight(u) == BlackHeight(p) && BlackHeight(c.right) == BlackHeight(s);
    assert Balanced(g'.left) && Balanced(g'.right);
  }

  /** The right-left case, as a double rotation, yields a red-black tree with the same keys
      and nodes. */
  lemma RightLeftRedBlack(c: Ctx, s: Tree)
    requires FixInv(c, s) && c.InLeft? && c.color == Red && c.up.InRight?
    requires IsBlack(Side(c.up))
    ensures Distinct(Plug(c.up.up, RightLeftTree(c, s)))
    ensures IsRedBlack(Plug(c.up.up, RightLeftTree(c, s)))
    ensures InOrder(Plug(c.up.up, RightLeftTree(c, s))) == InOrder(Plug(c, s))
    ensures Nodes(RightLeftTree(c, s)) == Nodes(Up(c.up, Up(c, s)))
  {
    RedParent(c, s);
    var u := Side(c.up);
    var g := Up(c.up, Up(c, s));
    var g' := RightLeftTree(c, s);
    assert u.Node? ==> u.ref in Nodes(u);
    RedRuleButElsewhere(u, s.ref, null);
    RightLeftLocal(c, s);
    Replug(c.up.up, g, g', s.ref, null);
    PlugInOrder(c.up.up, g, g');
  }
}
