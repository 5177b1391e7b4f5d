/** Why each case of the insertion fix-up either ends the repair or moves the defect two levels up. */
module RbInsert {
  import opened RbModel
  import opened RbRotate

  /** The inserted subtree is red and balanced; its only possible clash is with a red parent or an empty context. */
  ghost predicate InsertDefect(c: Context, t: Tree)
  {
    IsRed(t) && Balanced(t) && ContextOk(c, BlackHeight(t))
  }

  /** The state of the fix-up loop; an empty tree's new top is only stored when the loop ends. */
  ghost predicate Broken(m: map<Node, Cell>, top: Node?, c: Context, t: Tree, node: Node, parent: Node?, s: seq<Node>)
  {
    At(m, if c.Top? then node else top, c, t, node, parent) && InsertDefect(c, t) && Walk(c, t) == s
  }

  /** The grandparent's view of a defect. */
  lemma {:induction false} BalanceTwoUp(c: Context, t: Tree)
    requires InsertDefect(c, t) && HeadRed(c)
    ensures !c.up.Top? && !c.up.red && ContextOk(c.up.up, BlackHeight(t) + 1)
    ensures Balanced(c.sibling) && Balanced(c.up.sibling) && !IsRed(c.sibling)
    ensures BlackHeight(c.sibling) == BlackHeight(t) == BlackHeight(c.up.sibling)
  {
    assert ContextOk(c.up, BlackHeight(t));
  }

  lemma {:induction false} RedParts(t: Tree)
    requires IsRed(t) && Balanced(t)
    ensures Balanced(t.left) && Balanced(t.right) && !IsRed(t.left) && !IsRed(t.right)
    ensures BlackHeight(t.left) == BlackHeight(t.right) == BlackHeight(t)
  {
  }

  lemma {:induction false} TwoUp(m: map<Node, Cell>, top: Node?, c: Context, t: Tree, node: Node?, parent: Node?)
    requires At(m, top, c, t, node, parent) && !c.Top? && !c.up.Top?
    ensures parent == c.node && parent in m && c.up.node in m && m[parent].parent == c.up.node
    ensures var gparent, g := c.up.node, Fold(c.up, Fold(c, t));
            && At(m, top, c.up.up, g, gparent, m[gparent].parent)
            && Walk(c, t) == Walk(c.up.up, g) && Nodes(g) <= m.Keys
  {
    FoldAt(m, top, c, t, node, parent);
    FoldUp(c, t);
    FoldAt(m, top, c.up, Fold(c, t), parent, m[parent].parent);
    FoldUp(c.up, Fold(c, t));
    LinksDomain(m, Fold(c.up, Fold(c, t)), c.up.node, m[c.up.node].parent);
  }

  ghost predicate MayRotateL(m: map<Node, Cell>, node: Node, parent: Node, gparent: Node)
  {
    && {node, parent, gparent} <= m.Keys && node != parent && node != gparent
    && MayTurn(m, parent, gparent, m[parent].right)
    && (m[parent].right == node ==>
          && m[node].right != gparent && m[node].right != parent
          && (m[node].left != null ==> m[node].left in m && m[node].left !in {node, gparent})
          && (m[node].right != null ==> m[node].right in m))
  }

  lemma {:induction false} OuterLEnds(m: map<Node, Cell>, top: Node?, up: Context, a: Tree, x: Node, b: Tree, y: Node,
                                      c: Tree, par: Node?)
    requires At(m, top, up, T(T(a, x, true, b), y, false, c), y, par)
    requires Balanced(a) && Balanced(b) && Balanced(c) && BlackHeight(a) == BlackHeight(b) == BlackHeight(c)
    requires !IsRed(b) && !IsRed(c) && ContextOk(up, BlackHeight(a) + 1)
    ensures MayTurn(m, x, y, Get(m, x).right)
    ensures Grown(ChildChanged(OuterL(m, x, y), y, x, par), if par == null then x else top,
                  Plug(up, T(a, x, false, T(b, y, true, c))), Walk(up, T(T(a, x, true, b), y, false, c)))
  {
    hide Plug, Walk, Hole, Grown, InOrder;
    var g, g' := T(T(a, x, true, b), y, false, c), T(a, x, false, T(b, y, true, c));
    LinksDomain(m, g, y, par);
    LinksDomain(m, T(a, x, true, b), m[y].left, y);
    LinksDomain(m, b, m[x].right, x);
    OuterLLinks(m, a, x, b, y, c, par);
    WalkTurn(a, x, b, y, c, true, false, false, true);
    Finish(m, OuterL(m, x, y), top, up, g, g', y, x, par);
  }

  lemma {:induction false} MayInnerL(m: map<Node, Cell>, top: Node?, up: Context,
                                     a: Tree, x: Node, b: Tree, z: Node, c: Tree, y: Node, d: Tree, par: Node?)
    requires At(m, top, up, T(T(a, x, true, T(b, z, true, c)), y, false, d), y, par)
    ensures MayRotateL(m, z, x, y)
  {
    var p := T(a, x, true, T(b, z, true, c));
    ChildChangedInContext(m, top, up, y, y, par);
    assert Links(m, p, m[y].left, y) && Distinct(p);
    LinksDomain(m, p.right, m[x].right, x);
    assert Links(m, p.right, z, x) && Distinct(p.right);
    LinksDomain(m, b, m[z].left, z);
    LinksDomain(m, c, m[z].right, z);
  }

  lemma {:induction false} InnerLEnds(m: map<Node, Cell>, top: Node?, up: Context,
                                      a: Tree, x: Node, b: Tree, z: Node, c: Tree, y: Node, d: Tree, par: Node?)
    requires At(m, top, up, T(T(a, x, true, T(b, z, true, c)), y, false, d), y, par)
    requires Balanced(a) && Balanced(b) && Balanced(c) && Balanced(d)
    requires BlackHeight(a) == BlackHeight(b) == BlackHeight(c) == BlackHeight(d)
    requires !IsRed(a) && !IsRed(b) && !IsRed(c) && !IsRed(d) && ContextOk(up, BlackHeight(a) + 1)
    ensures Grown(ChildChanged(OuterL(InnerL(m, z, x), z, y), y, z, par), if par == null then z else top,
                  Plug(up, T(T(a, x, true, b), z, false, T(c, y, true, d))),
                  Walk(up, T(T(a, x, true, T(b, z, true, c)), y, false, d)))
  {
    hide Plug, Walk, Hole, Grown, InOrder;
    var g, g' := T(T(a, x, true, T(b, z, true, c)), y, false, d), T(T(a, x, true, b), z, false, T(c, y, true, d));
    InnerLLinks(m, a, x, b, z, c, y, d, par);
    WalkTurnTwice(a, x, b, z, c, y, d, true, true, false, true, false, true);
    Finish(m, OuterL(InnerL(m, z, x), z, y), top, up, g, g', y, z, par);
  }

  lemma {:induction false} RotateLEnds(m: map<Node, Cell>, top: Node?, c: Context, t: Tree, node: Node, parent: Node)
    returns (t': Tree)
    requires At(m, top, c, t, node, parent) && InsertDefect(c, t)
    requires HeadRed(c) && c.up.InL? && !IsRed(c.up.sibling)
    ensures MayRotateL(m, node, parent, c.up.node)
    ensures var y, now := c.up.node, Lifted(m[parent].right == node, node, parent);
            Grown(ChildChanged(RotateL(m, node, parent, y), y, now, m[y].parent),
                  if m[y].parent == null then now else top, t', Walk(c, t))
  {
    hide Plug, Walk, Grown, ChildChanged, Balanced, BlackHeight;
    BalanceTwoUp(c, t);
    RedParts(t);
    TwoUp(m, top, c, t, node, parent);
    Side(m, top, c, t, node, parent);
    LinksDomain(m, t, node, parent);
    hide At, ContextOk, Links, Hole;
    var y := c.up.node;
    if c.InR? {
      MayInnerL(m, top, c.up.up, c.sibling, parent, t.left, node, t.right, y, c.up.sibling, m[y].parent);
      InnerLEnds(m, top, c.up.up, c.sibling, parent, t.left, node, t.right, y, c.up.sibling, m[y].parent);
      t' := Plug(c.up.up, T(T(c.sibling, parent, true, t.left), node, false, T(t.right, y, true, c.up.sibling)));
    } else {
      OuterLEnds(m, top, c.up.up, t, parent, c.sibling, y, c.up.sibling, m[y].parent);
      t' := Plug(c.up.up, T(t, parent, false, T(c.sibling, y, true, c.up.sibling)));
    }
  }

  // The mirror image: the parent is a right child.

  ghost predicate MayRotateR(m: map<Node, Cell>, node: Node, parent: Node, gparent: Node)
  {
    && {node, parent, gparent} <= m.Keys && node != parent && node != gparent
    && MayTurn(m, parent, gparent, m[parent].left)
    && (m[parent].left == node ==>
          && m[node].left != gparent && m[node].left != parent
          && (m[node].right != null ==> m[node].right in m && m[node].right !in {node, gparent})
          && (m[node].left != null ==> m[node].left in m))
  }

  lemma {:induction false} OuterREnds(m: map<Node, Cell>, top: Node?, up: Context, a: Tree, x: Node, b: Tree, y: Node,
                                      c: Tree, par: Node?)
    requires At(m, top, up, T(a, x, false, T(b, y, true, c)), x, par)
    requires Balanced(a) && Balanced(b) && Balanced(c) && BlackHeight(a) == BlackHeight(b) == BlackHeight(c)
    requires !IsRed(a) && !IsRed(b) && ContextOk(up, BlackHeight(a) + 1)
    ensures MayTurn(m, y, x, Get(m, y).left)
    ensures Grown(ChildChanged(OuterR(m, y, x), x, y, par), if par == null then y else top,
                  Plug(up, T(T(a, x, true, b), y, false, c)), Walk(up, T(a, x, false, T(b, y, true, c))))
  {
    hide Plug, Walk, Hole, Grown, InOrder;
    var g, g' := T(a, x, false, T(b, y, true, c)), T(T(a, x, true, b), y, false, c);
    LinksDomain(m, g, x, par);
    LinksDomain(m, T(b, y, true, c), m[x].right, x);
    LinksDomain(m, b, m[y].left, y);
    OuterRLinks(m, a, x, b, y, c, par);
    WalkTurn(a, x, b, y, c, true, false, false, true);
    Finish(m, OuterR(m, y, x), top, up, g, g', x, y, par);
  }

  lemma {:induction false} MayInnerR(m: map<Node, Cell>, top: Node?, up: Context,
                                     a: Tree, x: Node, b: Tree, z: Node, c: Tree, y: Node, d: Tree, par: Node?)
    requires At(m, top, up, T(a, x, false, T(T(b, z, true, c), y, true, d)), x, par)
    ensures MayRotateR(m, z, y, x)
  {
    var p := T(T(b, z, true, c), y, true, d);
    ChildChangedInContext(m, top, up, x, x, par);
    assert Links(m, p, m[x].right, x) && Distinct(p);
    LinksDomain(m, p.left, m[y].left, y);
    assert Links(m, p.left, z, y) && Distinct(p.left);
    LinksDomain(m, b, m[z].left, z);
    LinksDomain(m, c, m[z].right, z);
  }

  lemma {:induction false} InnerREnds(m: map<Node, Cell>, top: Node?, up: Context,
                                      a: Tree, x: Node, b: Tree, z: Node, c: Tree, y: Node, d: Tree, par: Node?)
    requires At(m, top, up, T(a, x, false, T(T(b, z, true, c), y, true, d)), x, par)
    requires Balanced(a) && Balanced(b) && Balanced(c) && Balanced(d)
    requires BlackHeight(a) == BlackHeight(b) == BlackHeight(c) == BlackHeight(d)
    requires !IsRed(a) && !IsRed(b) && !IsRed(c) && !IsRed(d) && ContextOk(up, BlackHeight(a) + 1)
    ensures Grown(ChildChanged(OuterR(InnerR(m, z, y), z, x), x, z, par), if par == null then z else top,
                  Plug(up, T(T(a, x, true, b), z, false, T(c, y, true, d))),
                  Walk(up, T(a, x, false, T(T(b, z, true, c), y, true, d))))
  {
    hide Plug, Walk, Hole, Grown, InOrder;
    var g, g' := T(a, x, false, T(T(b, z, true, c), y, true, d)), T(T(a, x, true, b), z, false, T(c, y, true, d));
    InnerRLinks(m, a, x, b, z, c, y, d, par);
    WalkTurnTwice(a, x, b, z, c, y, d, false, true, true, true, false, true);
    Finish(m, OuterR(InnerR(m, z, y), z, x), top, up, g, g', x, z, par);
  }

  lemma {:induction false} RotateREnds(m: map<Node, Cell>, top: Node?, c: Context, t: Tree, node: Node, parent: Node)
    returns (t': Tree)
    requires At(m, top, c, t, node, parent) && InsertDefect(c, t)
    requires HeadRed(c) && c.up.InR? && !IsRed(c.up.sibling)
    ensures MayRotateR(m, node, parent, c.up.node)
    ensures var x, now := c.up.node, Lifted(m[parent].left == node, node, parent);
            Grown(ChildChanged(RotateR(m, node, parent, x), x, now, m[x].parent),
                  if m[x].parent == null then now else top, t', Walk(c, t))
  {
    hide Plug, Walk, Grown, ChildChanged, Balanced, BlackHeight;
    BalanceTwoUp(c, t);
    RedParts(t);
    TwoUp(m, top, c, t, node, parent);
    Side(m, top, c, t, node, parent);
    LinksDomain(m, t, node, parent);
    hide At, ContextOk, Links, Hole;
    var x := c.up.node;
    if c.InL? {
      MayInnerR(m, top, c.up.up, c.up.sibling, x, t.left, node, t.right, parent, c.sibling, m[x].parent);
      InnerREnds(m, top, c.up.up, c.up.sibling, x, t.left, node, t.right, parent, c.sibling, m[x].parent);
      t' := Plug(c.up.up, T(T(c.up.sibling, x, true, t.left), node, false, T(t.right, parent, true, c.sibling)));
    } else {
      OuterREnds(m, top, c.up.up, c.up.sibling, x, c.sibling, parent, t, m[x].parent);
      t' := Plug(c.up.up, T(T(c.up.sibling, x, true, c.sibling), parent, false, t));
    }
  }

  // A red uncle: the defect moves two levels up.

  lemma {:induction false} RecolourAt(m: map<Node, Cell>, m': map<Node, Cell>, top: Node?, up: Context,
                                      a: Tree, x: Node, b: Tree, z: Node, c: Tree, y: Node, d: Tree, par: Node?)
    requires At(m, top, up, T(T(a, x, true, b), z, false, T(c, y, true, d)), z, par)
    requires {x, y, z} <= m.Keys && OnlyWrote(m, m', {x, y, z})
    requires m'[x] == m[x].(red := false) && m'[y] == m[y].(red := false) && m'[z] == m[z].(red := true)
    ensures At(m', top, up, T(T(a, x, false, b), z, true, T(c, y, false, d)), z, par)
    ensures Walk(up, T(T(a, x, false, b), z, true, T(c, y, false, d))) ==
              Walk(up, T(T(a, x, true, b), z, false, T(c, y, true, d)))
  {
    var g, g' := T(T(a, x, true, b), z, false, T(c, y, true, d)), T(T(a, x, false, b), z, true, T(c, y, false, d));
    assert {x, y, z} <= Nodes(g);
    HoleDomain(m, top, up, z, par);
    HoleKeep(m, m', top, up, z, par);
    RecolourLinks(m, m', a, x, b, z, c, y, d, par);
    assert InOrder(g) == InOrder(g');
    SameWalk(g, g');
  }

  ghost function Recoloured(c: Context, t: Tree): Tree
    requires !c.Top? && !c.up.Top?
  {
    Paint(Fold(c.up.(sibling := Paint(c.up.sibling, false)), Paint(Fold(c, t), false)), true)
  }

  lemma {:induction false} RecolourUp(m: map<Node, Cell>, m': map<Node, Cell>, top: Node?, c: Context, t: Tree,
                                      node: Node, parent: Node)
    requires At(m, top, c, t, node, parent) && InsertDefect(c, t) && HeadRed(c) && !c.up.Top? && IsRed(c.up.sibling)
    requires var y, u := c.up.node, c.up.sibling.node;
             && {parent, u, y} <= m.Keys && OnlyWrote(m, m', {parent, u, y})
             && m'[parent] == m[parent].(red := false) && m'[u] == m[u].(red := false) && m'[y] == m[y].(red := true)
    ensures At(m', top, c.up.up, Recoloured(c, t), c.up.node, m'[c.up.node].parent)
    ensures Walk(c.up.up, Recoloured(c, t)) == Walk(c, t)
  {
    BalanceTwoUp(c, t);
    TwoUp(m, top, c, t, node, parent);
    var y, u, p := c.up.node, c.up.sibling, Fold(c, t);
    if c.up.InL? {
      RecolourAt(m, m', top, c.up.up, p.left, parent, p.right, y, u.left, u.node, u.right, m[y].parent);
    } else {
      RecolourAt(m, m', top, c.up.up, u.left, u.node, u.right, y, p.left, parent, p.right, m[y].parent);
    }
  }

  lemma {:induction false} RecolourDefect(c: Context, t: Tree)
    requires InsertDefect(c, t) && HeadRed(c) && !c.up.Top? && IsRed(c.up.sibling)
    ensures InsertDefect(c.up.up, Recoloured(c, t))
  {
    BalanceTwoUp(c, t);
  }

  /** What the fix-up loop learns by looking at the grandparent and the uncle. */
  lemma {:induction false} LookUp(m: map<Node, Cell>, top: Node?, c: Context, t: Tree, node: Node, parent: Node)
    requires At(m, top, c, t, node, parent) && InsertDefect(c, t) && HeadRed(c)
    ensures !c.up.Top? && parent == c.node && {parent, c.up.node} <= m.Keys
    ensures var y, s := c.up.node, c.up.sibling;
            var uncle := if c.up.InL? then m[y].right else m[y].left;
            && m[parent].parent == y && parent != y && (m[y].right == parent <==> c.up.InR?)
            && (uncle == null <==> s.Leaf?)
            && (s.T? ==> uncle == s.node && uncle in m && m[uncle].red == s.red && m[uncle].parent == y
                         && uncle != parent && uncle != y)
  {
    BalanceTwoUp(c, t);
    FoldAt(m, top, c, t, node, parent);
    Side(m, top, c.up, Fold(c, t), parent, m[parent].parent);
  }

  /** A black root, or a black parent, ends the repair at once. */
  lemma {:induction false} InsertEnds(m: map<Node, Cell>, top: Node?, c: Context, t: Tree, node: Node, parent: Node?)
    requires At(m, top, c, t, node, parent) && InsertDefect(c, t)
    ensures c.Top? <==> parent == null
    ensures c.Top? ==> node in m && Grown(WithParent(m, node, null, false), node, Paint(t, false), Walk(c, t))
    ensures !c.Top? ==> parent in m && m[parent].red == c.red
    ensures !c.Top? && !c.red ==> Grown(m, top, Plug(c, t), Walk(c, t))
  {
    LinksDomain(m, t, node, parent);
    if c.Top? {
      Rehang(m, WithParent(m, node, null, false), t, node, null, null, false);
      assert InOrder(Paint(t, false)) == Walk(c, t);
      SameWalk(t, Paint(t, false));
    } else if !c.red {
      Unfocus(m, top, c, t, node, parent);
      PlugRedBlack(c, t);
      PlugWalk(c, t);
    }
  }

  // The search for the insertion point.

  /** The nodes before (after) the hole are smaller (larger) than `x`. */
  ghost predicate Splits(cmp: (Node, Node) -> bool, x: Node, c: Context)
  {
    (forall y <- Before(c) :: cmp(y, x)) && (forall y <- After(c) :: cmp(x, y))
  }

  ghost function DownLeft(c: Context, t: Tree): Context
    requires t.T?
  {
    InL(c, t.node, t.red, t.right)
  }

  ghost function DownRight(c: Context, t: Tree): Context
    requires t.T?
  {
    InR(c, t.node, t.red, t.left)
  }

  lemma {:induction false} SortedAround(cmp: (Node, Node) -> bool, a: seq<Node>, x: Node, b: seq<Node>)
    requires Sorted(cmp, a + [x] + b)
    ensures (forall y <- a :: cmp(y, x)) && (forall y <- b :: cmp(x, y))
  {
    var s := a + [x] + b;
    assert s[|a|] == x;
    forall y | y in a ensures cmp(y, x) {
      var i :| 0 <= i < |a| && a[i] == y;
      assert s[i] == y;
    }
    forall y | y in b ensures cmp(x, y) {
      var i :| 0 <= i < |b| && b[i] == y;
      assert s[|a| + 1 + i] == y;
    }
  }

  lemma {:induction false} SortedInsert(cmp: (Node, Node) -> bool, a: seq<Node>, x: Node, b: seq<Node>)
    requires Sorted(cmp, a + b) && (forall y <- a :: cmp(y, x)) && (forall y <- b :: cmp(x, y))
    ensures Sorted(cmp, a + [x] + b)
  {
    var s, s' := a + b, a + [x] + b;
    forall i, j | 0 <= i < j < |s'| ensures cmp(s'[i], s'[j]) {
      if i == |a| {
        assert s'[j] == b[j - |a| - 1];
      } else if j == |a| {
        assert s'[i] == a[i];
      } else {
        assert s'[i] == s[if i < |a| then i else i - 1] && s'[j] == s[if j < |a| then j else j - 1];
      }
    }
  }

  ghost predicate Searching(cmp: (Node, Node) -> bool, x: Node, c: Context, t: Tree)
  {
    Splits(cmp, x, c) && Sorted(cmp, Walk(c, t)) && OrderOn(cmp, Elements(Walk(c, t)) + {x})
  }

  lemma {:induction false} WalkAt(c: Context, t: Tree)
    requires t.T?
    ensures Walk(c, t) == (Before(c) + InOrder(t.left)) + [t.node] + (InOrder(t.right) + After(c))
  {
  }

  lemma {:induction false} Chain(cmp: (Node, Node) -> bool, s: set<Node>, x: Node, n: Node, b: seq<Node>, a: seq<Node>)
    requires OrderOn(cmp, s) && x in s && n in s && (forall y <- b :: y in s && cmp(y, n))
             && (forall y <- a :: y in s && cmp(n, y))
    ensures cmp(x, n) ==> forall y <- a :: cmp(x, y)
    ensures cmp(n, x) ==> forall y <- b :: cmp(y, x)
  {
  }

  lemma {:induction false} SearchFacts(cmp: (Node, Node) -> bool, x: Node, c: Context, t: Tree)
    requires t.T? && Searching(cmp, x, c, t)
    ensures t.node in Walk(c, t)
    ensures cmp(x, t.node) ==> forall y <- InOrder(t.right) :: cmp(x, y)
    ensures cmp(t.node, x) ==> forall y <- InOrder(t.left) :: cmp(y, x)
  {
    var n, w, b, a := t.node, Walk(c, t), Before(c) + InOrder(t.left), InOrder(t.right) + After(c);
    WalkAt(c, t);
    SortedAround(cmp, b, n, a);
    assert n in w;
    Chain(cmp, Elements(w) + {x}, x, n, b, a);
    assert forall y <- InOrder(t.right) :: y in a;
    assert forall y <- InOrder(t.left) :: y in b;
  }

  /** The search loop: at `nw` in an unchanged tree. */
  ghost predicate Seeking(m: map<Node, Cell>, top: Node?, tree: Tree, cmp: (Node, Node) -> bool, x: Node,
                          c: Context, t: Tree, nw: Node?, par: Node?)
  {
    && At(m, top, c, t, nw, par) && tree == Plug(c, t) && IsRedBlack(tree)
    && Walk(c, t) == InOrder(tree) && Searching(cmp, x, c, t)
  }

  /** `x` has been hung where it belongs in the order. */
  ghost predicate Hung(m: map<Node, Cell>, top: Node?, tree: Tree, cmp: (Node, Node) -> bool, x: Node, c: Context,
                       par: Node?)
  {
    && Broken(m, top, c, T(Leaf, x, true, Leaf), x, par, Before(c) + [x] + After(c))
    && InOrder(tree) == Before(c) + After(c) && Splits(cmp, x, c)
  }

  lemma {:induction false} SeekStarts(m: map<Node, Cell>, top: Node?, tree: Tree, cmp: (Node, Node) -> bool, x: Node)
    requires Represents(m, top, tree) && IsRedBlack(tree) && Sorted(cmp, InOrder(tree))
             && OrderOn(cmp, Nodes(tree) + {x})
    ensures Seeking(m, top, tree, cmp, x, Top, tree, top, null)
  {
    hide Sorted, IsRedBlack, Links;
    InOrderNodes(tree);
    assert Walk(Top, tree) == InOrder(tree);
  }

  lemma {:induction false} SeekStep(m: map<Node, Cell>, top: Node?, tree: Tree, cmp: (Node, Node) -> bool, x: Node,
                                    c: Context, t: Tree, nw: Node, par: Node?)
    requires Seeking(m, top, tree, cmp, x, c, t, nw, par)
    ensures t.T? && nw == t.node && nw in m && nw in Nodes(tree)
    ensures cmp(x, nw) ==> Seeking(m, top, tree, cmp, x, DownLeft(c, t), t.left, m[nw].left, nw)
    ensures cmp(nw, x) ==> Seeking(m, top, tree, cmp, x, DownRight(c, t), t.right, m[nw].right, nw)
    ensures (t.left.T? <==> m[nw].left != null) && (t.right.T? <==> m[nw].right != null)
  {
    UnfoldAt(m, top, c, t, nw, par);
    PlugWalk(c, t);
    if cmp(x, nw) {
      SearchLeft(cmp, x, c, t);
    }
    if cmp(nw, x) {
      SearchRight(cmp, x, c, t);
    }
  }

  /** Reaching an empty spot shows that no node of the tree equals `x`. */
  lemma {:induction false} SeekEnds(m: map<Node, Cell>, top: Node?, tree: Tree, cmp: (Node, Node) -> bool, x: Node,
                                    c: Context, par: Node?)
    requires Seeking(m, top, tree, cmp, x, c, Leaf, null, par) && x !in m
    ensures Hung(Attached(m, c, par, x), top, tree, cmp, x, c, par)
  {
    hide Attached, Broken, At, IsRedBlack, Links, Hole;
    Attach(m, top, c, par, x);
    assert Walk(c, Leaf) == Before(c) + After(c);
  }

  lemma {:induction false} HungUnequal(m: map<Node, Cell>, top: Node?, tree: Tree, cmp: (Node, Node) -> bool, x: Node,
                                       c: Context, par: Node?)
    requires Hung(m, top, tree, cmp, x, c, par)
    ensures forall e <- Nodes(tree) :: cmp(e, x) || cmp(x, e)
    ensures Elements(Before(c) + [x] + After(c)) == Nodes(tree) + {x}
  {
    InOrderNodes(tree);
    var b, a := Before(c), After(c);
    assert forall e :: e in b + [x] + a <==> e in b + a || e == x;
  }

  lemma {:induction false} SearchLeft(cmp: (Node, Node) -> bool, x: Node, c: Context, t: Tree)
    requires t.T? && Searching(cmp, x, c, t) && cmp(x, t.node)
    ensures Walk(DownLeft(c, t), t.left) == Walk(c, t) && Searching(cmp, x, DownLeft(c, t), t.left)
  {
    SearchFacts(cmp, x, c, t);
    FoldUp(DownLeft(c, t), t.left);
  }

  lemma {:induction false} SearchRight(cmp: (Node, Node) -> bool, x: Node, c: Context, t: Tree)
    requires t.T? && Searching(cmp, x, c, t) && cmp(t.node, x)
    ensures Walk(DownRight(c, t), t.right) == Walk(c, t) && Searching(cmp, x, DownRight(c, t), t.right)
  {
    SearchFacts(cmp, x, c, t);
    FoldUp(DownRight(c, t), t.right);
  }

  ghost function Attached(m: map<Node, Cell>, c: Context, par: Node?, x: Node): map<Node, Cell>
  {
    (if c.Top? then m else if c.InL? then WithLeft(m, par, x)
        else WithRight(m, par, x))[x := Cell(null, null, par, true)]
  }

  /** Attaching a fresh red node at an empty spot gives a tree with an insertion defect there. */
  lemma {:induction false} Attach(m: map<Node, Cell>, top: Node?, c: Context, par: Node?, x: Node)
    requires At(m, top, c, Leaf, null, par) && x !in m && IsRedBlack(Plug(c, Leaf))
    ensures Broken(Attached(m, c, par, x), top, c, T(Leaf, x, true, Leaf), x, par, Before(c) + [x] + After(c))
  {
    var m1 := Rewired(m, c, x);
    var m' := Attached(m, c, par, x);
    assert m' == m1[x := Cell(null, null, par, true)];
    var top' := if c.Top? then x else top;
    CutRedBlack(c, Leaf);
    HoleDomain(m, top, c, null, par);
    HoleRewire(m, top, c, null, par, x);
    HoleDomain(m1, top', c, x, par);
    HoleKeep(m1, m', top', c, x, par);
    assert InOrder(T(Leaf, x, true, Leaf)) == [x];
    assert Distinct(T(Leaf, x, true, Leaf)) && Nodes(T(Leaf, x, true, Leaf)) == {x};
    assert Links(m', T(Leaf, x, true, Leaf), x, par);
  }
}
