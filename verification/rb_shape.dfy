/** Abstract red-black trees whose nodes remember which heap object stands for them, and
    contexts (the path from a subtree up to the root) to name a position in such a tree.
    The ordering, key set and red-black rules of rbtree/rb_tree.hpp are stated here. */
module RBShape {
  import opened RBNodes

  datatype Tree = Leaf | Node(left: Tree, ref: RBNode, key: int, color: Color, right: Tree)

  /** The path from a subtree (the focus) to the root.  `InLeft(up, n, k, c, r)`: the focus is
      the left subtree of node `n` (key `k`, colour `c`, right subtree `r`), and `up` is the
      context of `n`; `InRight` is the mirror image. */
  datatype Ctx =
    | Top
    | InLeft(up: Ctx, ref: RBNode, key: int, color: Color, right: Tree)
    | InRight(left: Tree, ref: RBNode, key: int, color: Color, up: Ctx)

  /** The tree obtained by putting `t` in the hole of `c`. */
  function Plug(c: Ctx, t: Tree): Tree
    decreases c
  {
    match c
    case Top => t
    case InLeft(up, n, k, col, r) => Plug(up, Node(t, n, k, col, r))
    case InRight(l, n, k, col, up) => Plug(up, Node(l, n, k, col, t))
  }

  /** The number of ancestors of the focus. */
  function Depth(c: Ctx): nat
  {
    match c
    case Top => 0
    case InLeft(up, _, _, _, _) => Depth(up) + 1
    case InRight(_, _, _, _, up) => Depth(up) + 1
  }

  /** The parent of the focus, if any. */
  function CtxParent(c: Ctx): RBNode?
  {
    if c.Top? then null else c.ref
  }

  function Nodes(t: Tree): set<RBNode>
  {
    match t
    case Leaf => {}
    case Node(l, n, _, _, r) => Nodes(l) + {n} + Nodes(r)
  }

  function CtxNodes(c: Ctx): set<RBNode>
  {
    match c
    case Top => {}
    case InLeft(up, n, _, _, r) => CtxNodes(up) + {n} + Nodes(r)
    case InRight(l, n, _, _, up) => CtxNodes(up) + {n} + Nodes(l)
  }

  /** No heap object stands for two nodes. */
  predicate Distinct(t: Tree)
  {
    match t
    case Leaf => true
    case Node(l, n, _, _, r) =>
      Distinct(l) && Distinct(r) && Nodes(l) !! Nodes(r) && n !in Nodes(l) && n !in Nodes(r)
  }

  /** The keys in in-order (left subtree, node, right subtree). */
  function InOrder(t: Tree): seq<int>
  {
    match t
    case Leaf => []
    case Node(l, _, k, _, r) => InOrder(l) + [k] + InOrder(r)
  }

  predicate Increasing(s: seq<int>)
  {
    forall i, j :: 0 <= i < j < |s| ==> s[i] < s[j]
  }

  /** The binary-search-tree ordering: keys strictly increase from left to right. */
  predicate Ordered(t: Tree)
  {
    Increasing(InOrder(t))
  }

  // ---------------------------------------------------------------------------------------
  // Red-black rules

  /** Leaves (the sentinel) are black. */
  predicate IsBlack(t: Tree)
  {
    t.Leaf? || t.color == Black
  }

  /** Black or the node `e`. */
  predicate BlackOr(t: Tree, e: RBNode?)
  {
    IsBlack(t) || t.ref == e
  }

  /** The number of black nodes on the leftmost path, the leaf not counted. */
  function BlackHeight(t: Tree): nat
  {
    match t
    case Leaf => 0
    case Node(l, _, _, c, _) => BlackHeight(l) + (if c == Black then 1 else 0)
  }

  /** Every path from a node down to a leaf meets the same number of black nodes. */
  predicate Balanced(t: Tree)
  {
    match t
    case Leaf => true
    case Node(l, _, _, _, r) => Balanced(l) && Balanced(r) && BlackHeight(l) == BlackHeight(r)
  }

  /** Every red node has black children, except that the child `e` may be red. */
  predicate RedRuleBut(t: Tree, e: RBNode?)
  {
    match t
    case Leaf => true
    case Node(l, _, _, c, r) =>
      (c == Red ==> BlackOr(l, e) && BlackOr(r, e)) && RedRuleBut(l, e) && RedRuleBut(r, e)
  }

  /** Every red node has black children. */
  predicate RedRule(t: Tree)
  {
    RedRuleBut(t, null)
  }

  /** A red-black tree: ordered, black root, no red node with a red child, balanced. */
  predicate IsRedBlack(t: Tree)
  {
    Ordered(t) && IsBlack(t) && RedRule(t) && Balanced(t)
  }

  /** The state `do_post_insert(x)` expects, `x` being the root of the focus `s`: the tree's
      nodes are distinct, it is ordered and balanced, `x` is red, the only red node that may
      have a red child is the parent of `x`, and the root is black unless it is `x`. */
  predicate FixInv(c: Ctx, s: Tree)
  {
    var t := Plug(c, s);
    s.Node? && s.color == Red && Distinct(t) &&
    Ordered(t) && Balanced(t) && RedRuleBut(t, s.ref) && (IsBlack(t) || t.ref == s.ref)
  }

  // ---------------------------------------------------------------------------------------
  // One level of a context

  /** The other subtree of the focus's parent. */
  function Side(c: Ctx): Tree
    requires !c.Top?
  {
    if c.InLeft? then c.right else c.left
  }

  /** The subtree rooted at the focus's parent, `t` being the focus. */
  function Up(c: Ctx, t: Tree): (r: Tree)
    requires !c.Top?
    ensures Plug(c, t) == Plug(c.up, r)
    ensures r.Node? && r.ref == c.ref && r.color == c.color
  {
    if c.InLeft? then Node(t, c.ref, c.key, c.color, c.right)
    else Node(c.left, c.ref, c.key, c.color, t)
  }

  // ---------------------------------------------------------------------------------------
  // The descent of insert

  /** The descent of `insert(node, data)`: left when `data < key`, right otherwise, and a new
      red node `x` holding `data` where the descent reaches the sentinel. */
  function Attach(t: Tree, x: RBNode, d: int): (r: Tree)
    ensures r.Node?
  {
    match t
    case Leaf => Node(Leaf, x, d, Red, Leaf)
    case Node(l, n, k, c, rt) =>
      if d < k then Node(Attach(l, x, d), n, k, c, rt) else Node(l, n, k, c, Attach(rt, x, d))
  }

  /** The keys met on the descent of `insert` for key `d`, each compared with `d` by the
      `assert(data != node->data_)` of rb_tree.hpp:93. */
  function SearchPath(t: Tree, d: int): seq<int>
  {
    match t
    case Leaf => []
    case Node(l, _, k, _, r) => [k] + (if d < k then SearchPath(l, d) else SearchPath(r, d))
  }

  // ---------------------------------------------------------------------------------------
  // Lemmas: contexts

  lemma {:induction false} PlugNodes(c: Ctx, t: Tree)
    ensures Nodes(Plug(c, t)) == CtxNodes(c) + Nodes(t)
    decreases c
  {
    match c
    case Top =>
    case InLeft(up, n, k, col, r) => PlugNodes(up, Node(t, n, k, col, r));
    case InRight(l, n, k, col, up) => PlugNodes(up, Node(l, n, k, col, t));
  }

  lemma {:induction false} PlugDistinct(c: Ctx, t: Tree)
    requires Distinct(Plug(c, t))
    ensures Distinct(t) && CtxNodes(c) !! Nodes(t)
    decreases c
  {
    match c
    case Top =>
    case InLeft(up, n, k, col, r) => PlugDistinct(up, Node(t, n, k, col, r));
    case InRight(l, n, k, col, up) => PlugDistinct(up, Node(l, n, k, col, t));
  }

  /** Replacing the focus by a subtree with the same nodes, distinct among themselves, keeps
      the whole tree's nodes distinct. */
  lemma {:induction false} PlugDistinctReplace(c: Ctx, t: Tree, t': Tree)
    requires Distinct(Plug(c, t)) && Distinct(t') && Nodes(t') == Nodes(t)
    ensures Distinct(Plug(c, t'))
    decreases c
  {
    match c
    case Top =>
    case InLeft(up, n, k, col, r) =>
      PlugDistinct(up, Node(t, n, k, col, r));
      PlugDistinctReplace(up, Node(t, n, k, col, r), Node(t', n, k, col, r));
    case InRight(l, n, k, col, up) =>
      PlugDistinct(up, Node(l, n, k, col, t));
      PlugDistinctReplace(up, Node(l, n, k, col, t), Node(l, n, k, col, t'));
  }

  /** Replacing the focus by a subtree with the same in-order keys keeps the in-order keys
      of the whole tree. */
  lemma {:induction false} PlugInOrder(c: Ctx, t: Tree, t': Tree)
    requires InOrder(t') == InOrder(t)
    ensures InOrder(Plug(c, t')) == InOrder(Plug(c, t))
    decreases c
  {
    match c
    case Top =>
    case InLeft(up, n, k, col, r) =>
      PlugInOrder(up, Node(t, n, k, col, r), Node(t', n, k, col, r));
    case InRight(l, n, k, col, up) =>
      PlugInOrder(up, Node(l, n, k, col, t), Node(l, n, k, col, t'));
  }

  /** Below the root, replacing the focus does not change the root. */
  lemma {:induction false} PlugRoot(c: Ctx, t: Tree, t': Tree)
    requires !c.Top?
    ensures Plug(c, t).Node? && Plug(c, t').Node?
    ensures Plug(c, t).ref == Plug(c, t').ref && Plug(c, t).color == Plug(c, t').color
    ensures Plug(c, t).ref in CtxNodes(c)
    decreases c
  {
    match c
    case InLeft(up, n, k, col, r) =>
      if !up.Top? { PlugRoot(up, Node(t, n, k, col, r), Node(t', n, k, col, r)); }
    case InRight(l, n, k, col, up) =>
      if !up.Top? { PlugRoot(up, Node(l, n, k, col, t), Node(l, n, k, col, t')); }
  }

  /** A left rotation at `m` (and, read backwards, a right rotation at `n`) keeps the in-order
      keys of the whole tree. */
  lemma RotationInOrder(c: Ctx, a: Tree, m: RBNode, k1: int, c1: Color, b: Tree, n: RBNode, k2: int, c2: Color, t: Tree)
    ensures InOrder(Plug(c, Node(Node(a, m, k1, c1, b), n, k2, c2, t))) ==
      InOrder(Plug(c, Node(a, m, k1, c1, Node(b, n, k2, c2, t))))
  {
    assert InOrder(Node(Node(a, m, k1, c1, b), n, k2, c2, t)) == InOrder(Node(a, m, k1, c1, Node(b, n, k2, c2, t)));
    PlugInOrder(c, Node(a, m, k1, c1, Node(b, n, k2, c2, t)), Node(Node(a, m, k1, c1, b), n, k2, c2, t));
  }

  /** A rotation (whatever the keys and colours) keeps the nodes and their distinctness. */
  lemma RotationDistinct(a: Tree, b: Tree, t: Tree, m: RBNode, n: RBNode,
                         k1: int, k2: int, k3: int, k4: int,
                         c1: Color, c2: Color, c3: Color, c4: Color)
    ensures Nodes(Node(a, m, k1, c1, Node(b, n, k2, c2, t))) == Nodes(Node(Node(a, m, k3, c3, b), n, k4, c4, t))
    ensures Distinct(Node(a, m, k1, c1, Node(b, n, k2, c2, t))) <==>
      Distinct(Node(Node(a, m, k3, c3, b), n, k4, c4, t))
  {
  }

  /** The balance conditions a context imposes on a focus of black height `bh`. */
  predicate CtxBalanced(c: Ctx, bh: nat)
    decreases c
  {
    match c
    case Top => true
    case InLeft(up, _, _, col, r) =>
      Balanced(r) && BlackHeight(r) == bh && CtxBalanced(up, bh + if col == Black then 1 else 0)
    case InRight(l, _, _, col, up) =>
      Balanced(l) && BlackHeight(l) == bh && CtxBalanced(up, bh + if col == Black then 1 else 0)
  }

  lemma {:induction false} PlugBalanced(c: Ctx, t: Tree)
    ensures Balanced(Plug(c, t)) <==> Balanced(t) && CtxBalanced(c, BlackHeight(t))
    decreases c
  {
    match c
    case Top =>
    case InLeft(up, n, k, col, r) => PlugBalanced(up, Node(t, n, k, col, r));
    case InRight(l, n, k, col, up) =>
      PlugBalanced(up, Node(l, n, k, col, t));
      if Balanced(Node(l, n, k, col, t)) {
        assert BlackHeight(Node(l, n, k, col, t)) == BlackHeight(t) + if col == Black then 1 else 0;
      }
  }

  /** The red rule a context imposes, given whether its focus is black or `e`. */
  predicate CtxRedRule(c: Ctx, focusOk: bool, e: RBNode?)
    decreases c
  {
    match c
    case Top => true
    case InLeft(up, n, _, col, r) =>
      (col == Red ==> focusOk && BlackOr(r, e)) && RedRuleBut(r, e) &&
      CtxRedRule(up, col == Black || n == e, e)
    case InRight(l, n, _, col, up) =>
      (col == Red ==> focusOk && BlackOr(l, e)) && RedRuleBut(l, e) &&
      CtxRedRule(up, col == Black || n == e, e)
  }

  lemma {:induction false} PlugRedRule(c: Ctx, t: Tree, e: RBNode?)
    ensures RedRuleBut(Plug(c, t), e) <==> RedRuleBut(t, e) && CtxRedRule(c, BlackOr(t, e), e)
    decreases c
  {
    match c
    case Top =>
    case InLeft(up, n, k, col, r) => PlugRedRule(up, Node(t, n, k, col, r), e);
    case InRight(l, n, k, col, up) => PlugRedRule(up, Node(l, n, k, col, t), e);
  }

  /** The exempted node only matters where it occurs. */
  lemma {:induction false} RedRuleButElsewhere(t: Tree, e: RBNode?, e': RBNode?)
    requires e !in Nodes(t) && e' !in Nodes(t)
    ensures RedRuleBut(t, e) <==> RedRuleBut(t, e')
  {
    match t
    case Leaf =>
    case Node(l, n, k, c, r) =>
      RedRuleButElsewhere(l, e, e');
      RedRuleButElsewhere(r, e, e');
  }

  lemma {:induction false} CtxRedRuleElsewhere(c: Ctx, b: bool, e: RBNode?, e': RBNode?)
    requires e !in CtxNodes(c) && e' !in CtxNodes(c)
    ensures CtxRedRule(c, b, e) <==> CtxRedRule(c, b, e')
    decreases c
  {
    match c
    case Top =>
    case InLeft(up, n, k, col, r) =>
      RedRuleButElsewhere(r, e, e');
      CtxRedRuleElsewhere(up, col == Black || n == e, e, e');
      CtxRedRuleElsewhere(up, col == Black || n == e', e, e');
    case InRight(l, n, k, col, up) =>
      RedRuleButElsewhere(l, e, e');
      CtxRedRuleElsewhere(up, col == Black || n == e, e, e');
      CtxRedRuleElsewhere(up, col == Black || n == e', e, e');
  }

  // ---------------------------------------------------------------------------------------
  // Lemmas: the descent of insert

  lemma {:induction false} AttachNodes(t: Tree, x: RBNode, d: int)
    ensures Nodes(Attach(t, x, d)) == Nodes(t) + {x}
    ensures Distinct(t) && x !in Nodes(t) ==> Distinct(Attach(t, x, d))
  {
    match t
    case Leaf =>
    case Node(l, n, k, c, r) =>
      AttachNodes(l, x, d);
      AttachNodes(r, x, d);
  }

  /** The new key joins the in-order keys and nothing else changes in them. */
  lemma {:induction false} AttachKeys(t: Tree, x: RBNode, d: int)
    ensures multiset(InOrder(Attach(t, x, d))) == multiset(InOrder(t)) + multiset{d}
  {
    match t
    case Leaf =>
    case Node(l, n, k, c, r) =>
      var ml, mr := multiset(InOrder(l)), multiset(InOrder(r));
      MultisetJoin(InOrder(l), k, InOrder(r));
      if d < k {
        AttachKeys(l, x, d);
        MultisetJoin(InOrder(Attach(l, x, d)), k, InOrder(r));
        MultisetAddLeft(ml, multiset{k}, mr, d);
      } else {
        AttachKeys(r, x, d);
        MultisetJoin(InOrder(l), k, InOrder(Attach(r, x, d)));
        MultisetAddRight(ml, multiset{k}, mr, d);
      }
  }

  lemma MultisetJoin(a: seq<int>, k: int, b: seq<int>)
    ensures multiset(a + [k] + b) == multiset(a) + multiset{k} + multiset(b)
  {
  }

  lemma MultisetAddLeft(a: multiset<int>, m: multiset<int>, b: multiset<int>, d: int)
    ensures (a + multiset{d}) + m + b == a + m + b + multiset{d}
  {
  }

  lemma MultisetAddRight(a: multiset<int>, m: multiset<int>, b: multiset<int>, d: int)
    ensures a + m + (b + multiset{d}) == a + m + b + multiset{d}
  {
  }

  lemma IncreasingJoin(a: seq<int>, k: int, b: seq<int>)
    requires Increasing(a) && Increasing(b)
    requires forall v :: v in a ==> v < k
    requires forall v :: v in b ==> k < v
    ensures Increasing(a + [k] + b)
  {
    var s := a + [k] + b;
    forall i, j | 0 <= i < j < |s| ensures s[i] < s[j] {
      if j < |a| {
      } else if i < |a| && j == |a| {
        assert a[i] in a;
      } else if i < |a| {
        assert a[i] in a && b[j - |a| - 1] in b;
      } else if i == |a| {
        assert s[j] == b[j - |a| - 1] && s[j] in b;
      } else {
        assert s[i] == b[i - |a| - 1] && s[j] == b[j - |a| - 1];
      }
    }
  }

  lemma IncreasingSplit(a: seq<int>, k: int, b: seq<int>)
    requires Increasing(a + [k] + b)
    ensures Increasing(a) && Increasing(b)
    ensures forall v :: v in a ==> v < k
    ensures forall v :: v in b ==> k < v
  {
    IncreasingSplitLeft(a, k, b);
    IncreasingSplitRight(a, k, b);
  }

  lemma IncreasingSplitLeft(a: seq<int>, k: int, b: seq<int>)
    requires Increasing(a + [k] + b)
    ensures Increasing(a) && forall v :: v in a ==> v < k
  {
    var s := a + [k] + b;
    assert forall i :: 0 <= i < |a| ==> s[i] == a[i];
    forall v | v in a ensures v < k {
      var i :| 0 <= i < |a| && a[i] == v;
      assert s[|a|] == k && s[i] == v;
    }
  }

  lemma IncreasingSplitRight(a: seq<int>, k: int, b: seq<int>)
    requires Increasing(a + [k] + b)
    ensures Increasing(b) && forall v :: v in b ==> k < v
  {
    var s := a + [k] + b;
    assert forall i :: 0 <= i < |b| ==> s[|a| + 1 + i] == b[i];
    forall v | v in b ensures k < v {
      var i :| 0 <= i < |b| && b[i] == v;
      assert s[|a|] == k && s[|a| + 1 + i] == v;
    }
    forall i, j | 0 <= i < j < |b| ensures b[i] < b[j] {
      assert s[|a| + 1 + i] == b[i] && s[|a| + 1 + j] == b[j];
    }
  }

  /** Every element of a sequence that holds the elements of `s` and `d` lies below `k` when
      those do. */
  lemma AllBelow(a: seq<int>, s: seq<int>, d: int, k: int)
    requires multiset(a) == multiset(s) + multiset{d}
    requires forall v :: v in s ==> v < k
    requires d < k
    ensures forall v :: v in a ==> v < k
  {
    forall v | v in a ensures v < k {
      assert v in multiset(a);
      if v != d {
        assert v in multiset(s);
        assert v in s;
      }
    }
  }

  lemma AllAbove(a: seq<int>, s: seq<int>, d: int, k: int)
    requires multiset(a) == multiset(s) + multiset{d}
    requires forall v :: v in s ==> k < v
    requires k < d
    ensures forall v :: v in a ==> k < v
  {
    forall v | v in a ensures k < v {
      assert v in multiset(a);
      if v != d {
        assert v in multiset(s);
        assert v in s;
      }
    }
  }

  /** The descent keeps the search-tree ordering when the new key is not met on the way
      (which the assertion of rb_tree.hpp:93 demands). */
  lemma {:induction false} AttachOrdered(t: Tree, x: RBNode, d: int)
    requires Ordered(t) && d !in SearchPath(t, d)
    ensures Ordered(Attach(t, x, d))
  {
    match t
    case Leaf =>
    case Node(l, n, k, c, r) =>
      IncreasingSplit(InOrder(l), k, InOrder(r));
      if d < k {
        AttachOrdered(l, x, d);
        AttachKeys(l, x, d);
        AllBelow(InOrder(Attach(l, x, d)), InOrder(l), d, k);
        IncreasingJoin(InOrder(Attach(l, x, d)), k, InOrder(r));
      } else {
        assert d != k;
        AttachOrdered(r, x, d);
        AttachKeys(r, x, d);
        AllAbove(InOrder(Attach(r, x, d)), InOrder(r), d, k);
        IncreasingJoin(InOrder(l), k, InOrder(Attach(r, x, d)));
      }
  }

  /** The context at which `Attach` puts the new node, the descent starting in context `c`. */
  function AttachCtx(c: Ctx, t: Tree, d: int): Ctx
    decreases t
  {
    match t
    case Leaf => c
    case Node(l, n, k, col, r) =>
      if d < k then AttachCtx(InLeft(c, n, k, col, r), l, d)
      else AttachCtx(InRight(l, n, k, col, c), r, d)
  }

  /** The new node is the focus of `AttachCtx`. */
  lemma {:induction false} AttachCtxPlug(c: Ctx, t: Tree, x: RBNode, d: int)
    ensures Plug(AttachCtx(c, t, d), Node(Leaf, x, d, Red, Leaf)) == Plug(c, Attach(t, x, d))
    decreases t
  {
    match t
    case Leaf =>
    case Node(l, n, k, col, r) =>
      if d < k {
        AttachCtxPlug(InLeft(c, n, k, col, r), l, x, d);
      } else {
        AttachCtxPlug(InRight(l, n, k, col, c), r, x, d);
      }
  }

  /** In a non-empty tree the descent ends below a node: the new node's context is that node's
      left side exactly when `d` is below its key, and the node, with the sentinel on that
      side, sits in the tree where the descent reaches it. */
  lemma {:induction false} AttachCtxLast(c: Ctx, t: Tree, d: int)
    requires t.Node?
    ensures var a := AttachCtx(c, t, d);
      !a.Top? && (a.InLeft? <==> d < a.key) &&
      Plug(a.up, Up(a, Leaf)) == Plug(c, t) && AttachCtx(a.up, Up(a, Leaf), d) == a
    decreases t
  {
    var l, n, k, col, r := t.left, t.ref, t.key, t.color, t.right;
    if d < k {
      if l.Node? {
        AttachCtxLast(InLeft(c, n, k, col, r), l, d);
      }
    } else {
      if r.Node? {
        AttachCtxLast(InRight(l, n, k, col, c), r, d);
      }
    }
  }

  /** A new red leaf changes no black height. */
  lemma {:induction false} AttachBalanced(t: Tree, x: RBNode, d: int)
    requires Balanced(t)
    ensures Balanced(Attach(t, x, d)) && BlackHeight(Attach(t, x, d)) == BlackHeight(t)
  {
    match t
    case Leaf =>
    case Node(l, n, k, c, r) =>
      AttachBalanced(l, x, d);
      AttachBalanced(r, x, d);
  }

  /** A new red leaf can only break the red rule at its parent. */
  lemma {:induction false} AttachRedRule(t: Tree, x: RBNode, d: int)
    requires RedRule(t) && x !in Nodes(t)
    ensures RedRuleBut(Attach(t, x, d), x)
    ensures t.Node? ==> Attach(t, x, d).ref == t.ref && Attach(t, x, d).color == t.color
  {
    match t
    case Leaf =>
    case Node(l, n, k, c, r) =>
      AttachRedRule(l, x, d);
      AttachRedRule(r, x, d);
      RedRuleButElsewhere(l, null, x);
      RedRuleButElsewhere(r, null, x);
  }

  /** Inserting into a red-black tree (rb_tree.hpp:95-119) yields the state `do_post_insert`
      expects, at the new node. */
  lemma AttachFixInv(t: Tree, x: RBNode, d: int)
    requires IsRedBlack(t) && Distinct(t) && x !in Nodes(t) && d !in SearchPath(t, d)
    ensures FixInv(AttachCtx(Top, t, d), Node(Leaf, x, d, Red, Leaf))
    ensures InOrder(Attach(t, x, d)) == InOrder(Plug(AttachCtx(Top, t, d), Node(Leaf, x, d, Red, Leaf)))
  {
    AttachCtxPlug(Top, t, x, d);
    AttachOrdered(t, x, d);
    AttachBalanced(t, x, d);
    AttachRedRule(t, x, d);
    AttachNodes(t, x, d);
  }

  /** In an ordered tree the descent meets the key exactly when the key is in the tree. */
  lemma {:induction false} SearchPathFinds(t: Tree, d: int)
    requires Ordered(t)
    ensures d in SearchPath(t, d) <==> d in InOrder(t)
  {
    match t
    case Leaf =>
    case Node(l, n, k, c, r) =>
      IncreasingSplit(InOrder(l), k, InOrder(r));
      SearchPathFinds(l, d);
      SearchPathFinds(r, d);
  }
}
