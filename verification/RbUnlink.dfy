/**
 Taking a node out of the tree before any repair: a node with at most one child is
 replaced by that child, any other node by its in-order successor.
 */
module RbUnlink {
  import opened RbModel
  import opened RbRotate
  import opened RbErase

  // The leftmost node of a subtree.

  ghost function MinTree(t: Tree): Tree
    requires t.T?
    ensures MinTree(t).T? && MinTree(t).left == Leaf
  {
    if t.left.Leaf? then t else MinTree(t.left)
  }

  ghost function MinParent(t: Tree, outside: Node): Node
    requires t.T?
  {
    if t.left.Leaf? then outside else MinParent(t.left, t.node)
  }

  /** The subtree with its leftmost node replaced by that node's right subtree, turned black. */
  ghost function WithoutMin(t: Tree): Tree
    requires t.T?
  {
    if t.left.Leaf? then Paint(t.right, false) else t.(left := WithoutMin(t.left))
  }

  /** The path from the surroundings `c` of a subtree down to the place of its leftmost node. */
  ghost function Spine(c: Context, t: Tree): Context
    requires t.T?
    decreases t
  {
    if t.left.Leaf? then c else Spine(InL(c, t.node, t.red, t.right), t.left)
  }

  lemma {:induction false} SpinePlug(c: Context, t: Tree)
    requires t.T?
    ensures Plug(Spine(c, t), MinTree(t)) == Plug(c, t)
    ensures Plug(Spine(c, t), Paint(MinTree(t).right, false)) == Plug(c, WithoutMin(t))
    decreases t
  {
    if t.left.T? {
      SpinePlug(InL(c, t.node, t.red, t.right), t.left);
    }
  }

  lemma {:induction false} SpineHead(c: Context, t: Tree)
    requires t.T? && !c.Top?
    ensures !Spine(c, t).Top? && Spine(c, t).node == MinParent(t, c.node)
    decreases t
  {
    if t.left.T? {
      SpineHead(InL(c, t.node, t.red, t.right), t.left);
    }
  }

  lemma {:induction false} MinWalk(t: Tree)
    requires t.T?
    ensures InOrder(t) == [MinTree(t).node] + InOrder(WithoutMin(t))
  {
    if t.left.T? {
      MinWalk(t.left);
      var x, w := [MinTree(t).node], InOrder(WithoutMin(t.left));
      assert (x + w) + [t.node] + InOrder(t.right) == x + (w + [t.node] + InOrder(t.right));
    } else {
      assert InOrder(Paint(t.right, false)) == InOrder(t.right);
    }
  }

  lemma {:induction false} MinNodes(t: Tree, outside: Node)
    requires t.T? && Distinct(t)
    ensures Nodes(MinTree(t)) <= Nodes(t) && Distinct(MinTree(t))
    ensures t.left.T? ==> Nodes(MinTree(t)) <= Nodes(t.left) && MinParent(t, outside) in Nodes(t) - Nodes(MinTree(t))
  {
    if t.left.T? {
      MinNodes(t.left, t.node);
    }
  }

  // Contexts that differ only in which nodes they name are balanced alike.

  ghost predicate Similar(c: Context, d: Context)
  {
    match c
    case Top => d.Top?
    case InL(up, _, red, s) => d.InL? && d.red == red && d.sibling == s && Similar(up, d.up)
    case InR(up, _, red, s) => d.InR? && d.red == red && d.sibling == s && Similar(up, d.up)
  }

  lemma {:induction false} SimilarSelf(c: Context)
    ensures Similar(c, c)
  {
    if !c.Top? {
      SimilarSelf(c.up);
    }
  }

  lemma {:induction false} SimilarOk(c: Context, d: Context, h: nat)
    requires Similar(c, d)
    ensures ContextOk(c, h) == ContextOk(d, h) && c.Top? == d.Top? && HeadRed(c) == HeadRed(d)
  {
    if !c.Top? {
      SimilarOk(c.up, d.up, h + if c.red then 0 else 1);
    }
  }

  lemma {:induction false} SimilarSpine(c: Context, d: Context, t: Tree)
    requires t.T? && Similar(c, d)
    ensures Similar(Spine(c, t), Spine(d, t))
    decreases t
  {
    if t.left.T? {
      SimilarSpine(InL(c, t.node, t.red, t.right), InL(d, t.node, t.red, t.right), t.left);
    }
  }

  // Memory after the successor has been moved into the erased node's place.

  /** The cells of a subtree whose leftmost node is being cut out, seen from below the erased node. */
  ghost predicate CutsMin(m: map<Node, Cell>, m': map<Node, Cell>, t: Tree, par: Node)
    requires t.T? && Nodes(t) <= m.Keys && Nodes(t) <= m'.Keys
  {
    var x, p := MinTree(t).node, MinParent(t, par);
    var child2 := Get(m, x).right;
    && (forall n <- Nodes(t) :: n != x && n != child2 && n != p ==> m'[n] == m[n])
    && (child2 != null && child2 in m ==> Get(m', child2) == m[child2].(parent := p, red := false))
    && (t.left.T? ==> Get(m', p) == Get(m, p).(left := child2))
  }

  lemma {:induction false} MinGone(m: map<Node, Cell>, m': map<Node, Cell>, t: Tree, p: Node?, par: Node)
    requires t.T? && Links(m, t, p, par) && Distinct(t) && par !in Nodes(t)
    requires Nodes(t) <= m.Keys && m'.Keys == m.Keys && CutsMin(m, m', t, par)
    ensures Links(m', WithoutMin(t), if t.left.Leaf? then Get(m, t.node).right else p, par)
  {
    if t.left.Leaf? {
      LinksDomain(m, t.right, m[t.node].right, t.node);
      Rehang(m, m', t.right, m[t.node].right, t.node, par, false);
    } else {
      var n, l := t.node, t.left;
      MinNodes(t, par);
      MinNodes(l, n);
      LinksDomain(m, l, m[n].left, n);
      MinRight(m, l, m[n].left, n);
      assert CutsMin(m, m', l, n);
      MinGone(m, m', l, m[n].left, n);
      LinksDomain(m, t.right, m[n].right, n);
      LinksKeep(m, m', t.right, m[n].right, n);
    }
  }

  /** The right child of the leftmost node lies below it. */
  lemma {:induction false} MinRight(m: map<Node, Cell>, t: Tree, p: Node?, par: Node?)
    requires t.T? && Links(m, t, p, par)
    ensures var x := MinTree(t);
            && x.node in m && m[x.node].red == x.red && m[x.node].left == null
            && (m[x.node].right == null <==> x.right.Leaf?) && (x.right.T? ==> m[x.node].right == x.right.node)
  {
    if t.left.T? {
      MinRight(m, t.left, m[t.node].left, t.node);
    } else {
      LinksDomain(m, t.right, m[t.node].right, t.node);
    }
  }

  /**
   The writes of the two-children branch, except its `__rb_change_child`; `parent` is the
   successor's old parent, or itself.
   */
  ghost function Unlinked(m: map<Node, Cell>, node: Node, succ: Node, parent: Node): (m': map<Node, Cell>)
    ensures m'.Keys == m.Keys
  {
    var m2 := Detached(m, node, succ, parent);
    WithParent(WithParent(m2, succ, Get(m, node).parent, Get(m, node).red), Get(m, succ).right, parent, false)
  }

  /** The part of those writes that comes before the `__rb_change_child`. */
  ghost function Detached(m: map<Node, Cell>, node: Node, succ: Node, parent: Node): (m': map<Node, Cell>)
    ensures m'.Keys == m.Keys
  {
    var child, child2, l := Get(m, node).right, Get(m, succ).right, Get(m, node).left;
    var m1 := if child == succ then m
              else WithParentOnly(WithRight(WithLeft(m, parent, child2), succ, child), child, succ);
    WithParentOnly(WithLeft(m1, succ, l), l, succ)
  }

  lemma {:induction false} DetachedKeeps(m: map<Node, Cell>, node: Node, child: Node, succ: Node, parent: Node)
    requires MayMove(m, node, child, succ, parent)
    ensures Detached(m, node, succ, parent)[node] == m[node]
  {
  }

  /** The successor is the right child itself. */
  lemma {:induction false} UnlinkedNear(m: map<Node, Cell>, l: Tree, node: Node, red: bool, succ: Node, rs: bool,
                                        x: Tree, par: Node?)
    requires var g := T(l, node, red, T(Leaf, succ, rs, x)); Links(m, g, node, par) && Distinct(g) && l.T?
    ensures var m' := Unlinked(m, node, succ, succ);
            && OnlyWrote(m, m', Nodes(T(l, node, red, T(Leaf, succ, rs, x))))
            && Links(m', T(l, succ, red, Paint(x, false)), succ, par)
  {
    var r := T(Leaf, succ, rs, x);
    var m' := Unlinked(m, node, succ, succ);
    LinksDomain(m, l, m[node].left, node);
    LinksDomain(m, r, m[node].right, node);
    assert Links(m, r, succ, node) && Distinct(r);
    LinksDomain(m, x, m[succ].right, succ);
    Rehang(m, m', l, m[node].left, node, succ, IsRed(l));
    assert Paint(l, IsRed(l)) == l;
    Rehang(m, m', x, m[succ].right, succ, succ, false);
  }

  lemma {:induction false} UnlinkedFarCells(m: map<Node, Cell>, l: Tree, node: Node, red: bool, r: Tree, par: Node?)
    requires var g := T(l, node, red, r); Links(m, g, node, par) && Distinct(g) && l.T? && r.T? && r.left.T?
    ensures Nodes(l) <= m.Keys && Nodes(r) <= m.Keys && node in m && m[node].right == r.node && m[node].left == l.node
    ensures var succ := MinTree(r).node; var parent := MinParent(r, succ); var m' := Unlinked(m, node, succ, parent);
            && OnlyWrote(m, m', Nodes(l) + Nodes(r))
            && Get(m', succ) == Cell(l.node, r.node, par, red)
            && CutsMin(m, m', r.left, r.node)
            && Get(m', r.node) == m[r.node].(parent := succ, left := if parent == r.node then Get(m, succ).right
                else m[r.node].left)
            && (forall n <- Nodes(l) :: m'[n] == if n == l.node then m[n].(parent := succ) else m[n])
            && (forall n <- Nodes(r.right) :: m'[n] == m[n])
  {
    LinksDomain(m, T(l, node, red, r), node, par);
    LinksDomain(m, r, m[node].right, node);
    LinksDomain(m, l, m[node].left, node);
    MinRight(m, r, m[node].right, node);
    MinNodes(r, node);
    MinNodes(r.left, r.node);
  }

  /** The successor lies deeper in the right subtree. */
  lemma {:induction false} UnlinkedFar(m: map<Node, Cell>, l: Tree, node: Node, red: bool, r: Tree, par: Node?)
    requires var g := T(l, node, red, r); Links(m, g, node, par) && Distinct(g) && l.T? && r.T? && r.left.T?
    ensures var succ := MinTree(r).node; var m' := Unlinked(m, node, succ, MinParent(r, succ));
            && OnlyWrote(m, m', Nodes(l) + Nodes(r))
            && Links(m', T(l, succ, red, WithoutMin(r)), succ, par)
  {
    var succ := MinTree(r).node;
    var m' := Unlinked(m, node, succ, MinParent(r, succ));
    UnlinkedFarCells(m, l, node, red, r, par);
    assert Links(m, r, m[node].right, node) && Distinct(r);
    var n := r.node;
    Rehang(m, m', l, l.node, node, succ, l.red);
    assert Paint(l, l.red) == l;
    LinksDomain(m, r.left, m[n].left, n);
    LinksDomain(m, r.right, m[n].right, n);
    MinGone(m, m', r.left, m[n].left, n);
    LinksKeep(m, m', r.right, m[n].right, n);
    assert Links(m', WithoutMin(r), n, succ);
  }

  lemma {:induction false} UnlinkedLinks(m: map<Node, Cell>, l: Tree, node: Node, red: bool, r: Tree, par: Node?)
    requires var g := T(l, node, red, r); Links(m, g, node, par) && Distinct(g) && l.T? && r.T?
    ensures var succ := MinTree(r).node; var m' := Unlinked(m, node, succ, MinParent(r, succ));
            && OnlyWrote(m, m', Nodes(T(l, node, red, r)))
            && Links(m', T(l, succ, red, WithoutMin(r)), succ, par)
  {
    if r.left.T? {
      UnlinkedFar(m, l, node, red, r, par);
    } else {
      UnlinkedNear(m, l, node, red, r.node, r.red, r.right, par);
    }
  }

  /** Replacing a node by its successor removes it, and nothing else, from the walk. */
  lemma {:induction false} SuccessorWalk(l: Tree, node: Node, red: bool, r: Tree)
    requires r.T? && Distinct(T(l, node, red, r))
    ensures var g' := T(l, MinTree(r).node, red, WithoutMin(r));
            InOrder(g') == InOrder(l) + InOrder(r) && Distinct(g') && Nodes(g') <= Nodes(T(l, node, red, r))
  {
    var g, g', a, b := T(l, node, red, r), T(l, MinTree(r).node, red, WithoutMin(r)), InOrder(l), InOrder(r);
    MinWalk(r);
    assert a + [MinTree(r).node] + InOrder(WithoutMin(r)) == a + b;
    DistinctWalk(g);
    assert forall i :: 0 <= i < |a| ==> (a + b)[i] == (a + [node] + b)[i];
    assert forall i :: |a| <= i < |a + b| ==> (a + b)[i] == (a + [node] + b)[i + 1];
    assert NoDup(a + b);
    DistinctWalk(g');
    InOrderNodes(g);
    InOrderNodes(g');
  }

  /** The walk around a removed node. */
  ghost function Rest(c: Context, l: Tree, r: Tree): seq<Node>
  {
    Before(c) + (InOrder(l) + InOrder(r)) + After(c)
  }

  lemma {:induction false} TwoChildrenLinks(m: map<Node, Cell>, top: Node?, c: Context, l: Tree, node: Node, red: bool,
                                            r: Tree, par: Node?)
    requires At(m, top, c, T(l, node, red, r), node, par) && l.T? && r.T?
    ensures par != null ==> par in m
    ensures var succ := MinTree(r).node; var m1 := Unlinked(m, node, succ, MinParent(r, succ));
            var t' := Plug(c, T(l, succ, red, WithoutMin(r)));
            && Represents(ChildChanged(m1, node, succ, par), if par == null then succ else top, t')
            && InOrder(t') == Rest(c, l, r)
  {
    var g, succ := T(l, node, red, r), MinTree(r).node;
    var g', m1 := T(l, succ, red, WithoutMin(r)), Unlinked(m, node, succ, MinParent(r, succ));
    UnlinkedLinks(m, l, node, red, r, par);
    SuccessorWalk(l, node, red, r);
    Regrow(m, m1, top, c, g, g', node, succ, par);
    Unfocus(ChildChanged(m1, node, succ, par), if par == null then succ else top, c, g', succ, par);
    PlugWalk(c, g');
  }

  /** Whether taking out the successor leaves a red-black tree, or one short black node at the end of the spine. */
  lemma {:induction false} TwoChildrenBalance(c: Context, l: Tree, node: Node, red: bool, r: Tree)
    requires r.T? && IsRedBlack(Plug(c, T(l, node, red, r)))
    ensures var x := MinTree(r); var d, t' := Spine(InR(c, x.node, red, l), r),
                                 Plug(c, T(l, x.node, red, WithoutMin(r)));
            && t' == Plug(d, Paint(x.right, false))
            && (x.right.T? || x.red ==> IsRedBlack(t'))
            && (x.right.Leaf? && !x.red ==> EraseDefect(d, Leaf) && Paint(x.right, false) == Leaf)
  {
    var x := MinTree(r);
    var o, o' := InR(c, node, red, l), InR(c, x.node, red, l);
    var d := Spine(o', r);
    SpinePlug(o, r);
    SpinePlug(o', r);
    CutRedBlack(Spine(o, r), x);
    SimilarSelf(c);
    SimilarSpine(o, o', r);
    SimilarOk(Spine(o, r), d, BlackHeight(x));
    SpineHead(o', r);
    if x.right.T? || x.red {
      PlugRedBlack(d, Paint(x.right, false));
    }
  }

  /** The state `__rb_erase` leaves behind: a finished tree, or a place to start the repair from. */
  ghost predicate TakenOut(m: map<Node, Cell>, top: Node?, t: Tree, c: Context, rebalance: Node?, s: seq<Node>)
  {
    if rebalance == null then Grown(m, top, t, s) else Short(m, top, c, Leaf, null, rebalance, s)
  }

  lemma {:induction false} TwoChildrenEnds(m: map<Node, Cell>, top: Node?, c: Context, l: Tree, node: Node, red: bool,
                                           r: Tree, par: Node?)
    returns (t': Tree, d: Context)
    requires At(m, top, c, T(l, node, red, r), node, par) && l.T? && r.T? && IsRedBlack(Plug(c, T(l, node, red, r)))
    ensures par != null ==> par in m
    ensures var x := MinTree(r); var parent := MinParent(r, x.node);
            TakenOut(ChildChanged(Unlinked(m, node, x.node, parent), node, x.node, par),
                     if par == null then x.node else top, t', d,
                     if x.right.T? || x.red then null else parent, Rest(c, l, r))
  {
    var x := MinTree(r);
    var m' := ChildChanged(Unlinked(m, node, x.node, MinParent(r, x.node)), node, x.node, par);
    var top' := if par == null then x.node else top;
    t', d := Plug(c, T(l, x.node, red, WithoutMin(r))), Spine(InR(c, x.node, red, l), r);
    TwoChildrenLinks(m, top, c, l, node, red, r, par);
    TwoChildrenBalance(c, l, node, red, r);
    if x.right.Leaf? && !x.red {
      SpineHead(InR(c, x.node, red, l), r);
      var p, q := Refocus(m', top', d, Leaf);
      PlugWalk(d, Leaf);
    }
  }

  /** A node with at most one child `k` (on either side) is replaced by that child, which takes over its colour. */
  lemma {:induction false} OneChildEnds(m: map<Node, Cell>, top: Node?, c: Context, g: Tree, k: Tree, child: Node?,
                                        node: Node, par: Node?)
    returns (t': Tree)
    requires At(m, top, c, g, node, par) && IsRedBlack(Plug(c, g))
    requires g.T? && g.node == node && ((g.left.Leaf? && g.right == k) || (g.right.Leaf? && g.left == k))
    requires node in m && child == if g.left.Leaf? then m[node].right else m[node].left
    ensures (par != null ==> par in m) && (child != null ==> child in m)
    ensures (child == null <==> k.Leaf?) && m[node].red == g.red && m[node].parent == par
    ensures TakenOut(ChildChanged(WithParent(m, child, par, g.red), node, child, par),
                     if par == null then child else top, t', c,
                     if k.Leaf? && !g.red then par else null, Rest(c, g.left, g.right))
  {
    CutRedBlack(c, g);
    var g' := Paint(k, g.red);
    var m1 := WithParent(m, child, par, g.red);
    LinksDomain(m, k, child, node);
    Rehang(m, m1, k, child, node, par, g.red);
    assert InOrder(g') == InOrder(k) == InOrder(g.left) + InOrder(g.right);
    SameWalk(k, g');
    Regrow(m, m1, top, c, g, g', node, child, par);
    var m', top' := ChildChanged(m1, node, child, par), if par == null then child else top;
    t' := Plug(c, g');
    if k.T? || g.red || par == null {
      Unfocus(m', top', c, g', child, par);
      PlugRedBlack(c, g');
      PlugWalk(c, g');
    }
  }

  /** Writing a parent link or colour commutes with replacing a child. */
  lemma {:induction false} ChangeCommutes(m: map<Node, Cell>, n: Node?, p: Node?, red: bool, was: Node?, now: Node?,
                                          par: Node?)
    ensures WithParent(ChildChanged(m, was, now, par), n, p, red) ==
              ChildChanged(WithParent(m, n, p, red), was, now, par)
  {
  }

  /** What moving a successor needs in order to be allowed to write. */
  ghost predicate MayMove(m: map<Node, Cell>, node: Node, child: Node, succ: Node, parent: Node)
  {
    && {node, child, succ, parent} <= m.Keys && m[node].right == child
    && node != succ && node != parent && node != child
    && (m[succ].right != null ==> m[succ].right in m && m[succ].right != node)
    && m[node].left != null && m[node].left in m && m[node].left != node && m[node].left != succ
      && m[node].left != parent && m[node].left != child
    && (m[node].parent != null ==> m[node].parent in m)
  }

  lemma {:induction false} MaySucceed(m: map<Node, Cell>, top: Node?, c: Context, l: Tree, node: Node, red: bool,
                                      r: Tree, par: Node?)
    requires At(m, top, c, T(l, node, red, r), node, par) && l.T? && r.T?
    ensures node in m && m[node].right == r.node && m[node].parent == par && Links(m, r, r.node, node)
    ensures var x := MinTree(r);
            && MayMove(m, node, r.node, x.node, MinParent(r, x.node))
            && (m[x.node].right == null <==> x.right.Leaf?) && m[x.node].red == x.red
  {
    ChildChangedInContext(m, top, c, node, node, par);
    LinksDomain(m, l, m[node].left, node);
    LinksDomain(m, r, m[node].right, node);
    MinRight(m, r, m[node].right, node);
    MinNodes(r, node);
    var x := MinTree(r);
    assert r.left.Leaf? ==> MinParent(r, x.node) == x.node;
    assert x.node in Nodes(r) && (x.right.T? ==> x.right.node in Nodes(x));
  }

  /** Taking `node` out of a walk without repetitions. */
  lemma {:induction false} RestWalk(c: Context, l: Tree, node: Node, red: bool, r: Tree)
    requires Apart(c, T(l, node, red, r))
    ensures var s, s' := Walk(c, T(l, node, red, r)), Rest(c, l, r);
            InsertedInto(s', node, s) && Elements(s') == Elements(s) - {node}
  {
    hide *;
    var t := T(l, node, red, r);
    PlugWalk(c, t);
    DistinctWalk(Plug(c, t));
    RestParts(c, l, node, red, r);
    TakeOut(Before(c) + InOrder(l), node, InOrder(r) + After(c));
  }

  lemma {:induction false} RestParts(c: Context, l: Tree, node: Node, red: bool, r: Tree)
    ensures var b, a := Before(c) + InOrder(l), InOrder(r) + After(c);
            Walk(c, T(l, node, red, r)) == b + [node] + a && Rest(c, l, r) == b + a
  {
    hide Before, After;
    var b, l', r', a := Before(c), InOrder(l), InOrder(r), After(c);
    assert InOrder(T(l, node, red, r)) == l' + [node] + r';
    hide InOrder;
    assert b + (l' + [node] + r') + a == b + l' + [node] + (r' + a);
    assert b + (l' + r') + a == b + l' + (r' + a);
  }

  lemma {:induction false} TakeOut(b: seq<Node>, x: Node, a: seq<Node>)
    requires NoDup(b + [x] + a)
    ensures InsertedInto(b + a, x, b + [x] + a) && Elements(b + a) == Elements(b + [x] + a) - {x}
  {
    var s, s' := b + [x] + a, b + a;
    NoDupSplit(b, x, a);
    assert s == s'[..|b|] + [x] + s'[|b|..];
    assert forall y :: y in s <==> y in s' || y == x;
  }

  /** Forgetting the erased node's cell leaves exactly the tree's nodes on record. */
  lemma {:induction false} DropNode(m: map<Node, Cell>, top: Node?, t: Tree, s: seq<Node>, node: Node)
    requires Grown(m, top, t, s) && Elements(s) == m.Keys - {node}
    ensures (m - {node}).Keys == Nodes(t) && Grown(m - {node}, top, t, s)
  {
    InOrderNodes(t);
    LinksKeep(m, m - {node}, t, top, null);
  }
}
