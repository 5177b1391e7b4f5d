/** Why each case of the erase fix-up either ends the repair or moves the missing black node one level up. */
module RbErase {
  import opened RbModel
  import opened RbRotate

  /** The subtree is black and one black node short of what its surroundings need. */
  ghost predicate EraseDefect(c: Context, t: Tree)
  {
    Balanced(t) && !IsRed(t) && !c.Top? && ContextOk(c, BlackHeight(t) + 1)
  }

  /** The state of the erase fix-up loop. */
  ghost predicate Short(m: map<Node, Cell>, top: Node?, c: Context, t: Tree, node: Node?, parent: Node?, s: seq<Node>)
  {
    At(m, top, c, t, node, parent) && EraseDefect(c, t) && Walk(c, t) == s
  }

  /** What the loop learns by looking at the sibling: it exists, and comparing pointers tells its side. */
  lemma {:induction false} LookAcross(m: map<Node, Cell>, top: Node?, c: Context, t: Tree, node: Node?, parent: Node?,
                                      s: seq<Node>)
    requires Short(m, top, c, t, node, parent, s)
    ensures parent == c.node && parent in m && c.sibling.T? && Balanced(c.sibling)
            && BlackHeight(c.sibling) == BlackHeight(t) + 1
    ensures var s := c.sibling.node;
            && s in m && m[s].red == c.sibling.red && m[s].parent == parent && m[parent].red == c.red && s != parent
            && (if c.InL? then m[parent].right else m[parent].left) == s
            && (if c.InL? then m[parent].left else m[parent].right) == node
            && (m[parent].right != node <==> c.InL?)
            && Links(m, c.sibling, s, parent)
    ensures m[parent].parent != null ==> m[parent].parent in m
    ensures Nodes(c.sibling) <= m.Keys
  {
    var sib := if c.InL? then m[c.node].right else m[c.node].left;
    LinksDomain(m, c.sibling, sib, c.node);
    LinksDomain(m, t, node, parent);
    FoldAt(m, top, c, t, node, parent);
    ChildChangedInContext(m, top, c.up, c.node, c.node, m[c.node].parent);
  }

  lemma {:induction false} ShortParent(m: map<Node, Cell>, top: Node?, c: Context, t: Tree, node: Node?, parent: Node?,
                                       s: seq<Node>)
    requires Short(m, top, c, t, node, parent, s)
    ensures parent != null && parent == c.node
  {
  }

  // The writes of the erase cases, as functions of memory. `L` is the branch in which the
  // short subtree is a left child, `R` its mirror image.

  /** Case 4, without the final `__rb_change_child`: lift the sibling above the parent. */
  ghost function LiftL(m: map<Node, Cell>, parent: Node, sibling: Node): (m': map<Node, Cell>)
    ensures m'.Keys == m.Keys
  {
    Swapped(LoosenL(m, parent, sibling), parent, sibling, false)
  }

  ghost function LoosenL(m: map<Node, Cell>, parent: Node, sibling: Node): (m': map<Node, Cell>)
    ensures m'.Keys == m.Keys
  {
    var tmp1, tmp2 := Get(m, sibling).right, Get(m, sibling).left;
    WithParent(WithLeft(WithParentOnly(WithRight(m, parent, tmp2), tmp2, parent), sibling, parent), tmp1, sibling,
      false)
  }

  lemma {:induction false} LoosenLKeeps(m: map<Node, Cell>, parent: Node, sibling: Node)
    requires MayLift(m, parent, sibling, Get(m, sibling).left, Get(m, sibling).right)
    ensures LoosenL(m, parent, sibling)[parent].parent == m[parent].parent
  {
  }

  /** Case 3: hand the sibling's place to its red near child. */
  ghost function PrepareL(m: map<Node, Cell>, parent: Node, sibling: Node): (m': map<Node, Cell>)
    ensures m'.Keys == m.Keys
  {
    var tmp2 := Get(m, sibling).left;
    var tmp1 := Get(m, tmp2).right;
    var m1 := WithParent(WithLeft(m, sibling, tmp1), tmp1, sibling, false);
    if tmp2 == null then m1 else WithRight(WithRight(m1, tmp2, sibling), parent, tmp2)
  }

  lemma {:induction false} LiftLLinks(m: map<Node, Cell>, a: Tree, x: Node, b: Tree, y: Node, c: Tree, rx: bool,
                                      par: Node?)
    requires var g := T(a, x, rx, T(b, y, false, c)); Links(m, g, x, par) && Distinct(g) && c.T?
    ensures var m1 := LiftL(m, x, y);
            && OnlyWrote(m, m1, Nodes(T(a, x, rx, T(b, y, false, c))))
            && Links(m1, T(T(a, x, false, b), y, rx, Paint(c, false)), y, par)
  {
    var m1 := LiftL(m, x, y);
    assert Links(m, T(b, y, false, c), m[x].right, x) && Distinct(T(b, y, false, c));
    LinksDomain(m, a, m[x].left, x);
    LinksDomain(m, b, m[y].left, y);
    LinksDomain(m, c, m[y].right, y);
    LinksKeep(m, m1, a, m[x].left, x);
    Rehang(m, m1, b, m[y].left, y, x, IsRed(b));
    Rehang(m, m1, c, m[y].right, y, y, false);
    assert Paint(b, IsRed(b)) == b;
    assert Links(m1, T(a, x, false, b), x, y);
  }

  lemma {:induction false} PrepareLiftLLinks(m: map<Node, Cell>, a: Tree, x: Node, b: Tree, z: Node, c: Tree, y: Node,
                                             d: Tree, rx: bool, par: Node?)
    requires var g := T(a, x, rx, T(T(b, z, true, c), y, false, d)); Links(m, g, x, par) && Distinct(g) && !IsRed(c)
    ensures var m1 := LiftL(PrepareL(m, x, y), x, z);
            && OnlyWrote(m, m1, Nodes(T(a, x, rx, T(T(b, z, true, c), y, false, d))))
            && Links(m1, T(T(a, x, false, b), z, rx, T(c, y, false, d)), z, par)
  {
    var g := T(a, x, rx, T(T(b, z, true, c), y, false, d));
    TurnTwicePieces(m, g, a, x, b, z, c, y, d, rx, false, true, x, par);
    assert Links(m, T(T(b, z, true, c), y, false, d), m[x].right, x);
    LinksDomain(m, T(b, z, true, c), m[y].left, y);
    LinksDomain(m, b, m[z].left, z);
    LinksDomain(m, c, m[z].right, z);
    TurnTwice(m, LiftL(PrepareL(m, x, y), x, z), g, a, x, b, z, c, y, d, rx, false, true, x, par);
  }

  /** What lifting a sibling above its parent needs in order to be allowed to write. */
  ghost predicate MayLift(m: map<Node, Cell>, parent: Node, sibling: Node, near: Node?, far: Node?)
  {
    && {parent, sibling} <= m.Keys && parent != sibling && near != parent && far != parent
    && (near != null ==> near in m) && (far != null ==> far in m)
    && (m[parent].parent != null ==> m[parent].parent in m)
  }

  // Case 1: a red sibling is rotated away, leaving a black one and a red parent.

  ghost function Case1L(c: Context): Context
    requires c.InL? && c.sibling.T?
  {
    InL(InL(c.up, c.sibling.node, c.red, c.sibling.right), c.node, true, c.sibling.left)
  }

  lemma {:induction false} Case1LBalance(c: Context, t: Tree)
    requires EraseDefect(c, t) && c.InL? && IsRed(c.sibling)
    ensures !c.red && EraseDefect(Case1L(c), t) && !IsRed(c.sibling.left) && c.sibling.left.T?
  {
  }

  lemma {:induction false} Case1LAt(m: map<Node, Cell>, top: Node?, up: Context, a: Tree, x: Node, b: Tree, y: Node,
                                    c: Tree, node: Node?, par: Node?)
    requires At(m, top, up, T(a, x, false, T(b, y, true, c)), x, par) && !IsRed(b)
    requires x in m && m[x].left == node
    ensures MayTurn(m, y, x, Get(m, y).left)
    ensures var m', top' := ChildChanged(OuterR(m, y, x), x, y, par), if par == null then y else top;
            At(m', top', InL(InL(up, y, false, c), x, true, b), a, node, x)
    ensures Walk(up, T(a, x, false, T(b, y, true, c))) == Walk(InL(InL(up, y, false, c), x, true, b), a)
  {
    var g, g' := T(a, x, false, T(b, y, true, c)), T(T(a, x, true, b), y, false, c);
    LinksDomain(m, T(b, y, true, c), m[x].right, x);
    LinksDomain(m, b, m[y].left, y);
    OuterRLinks(m, a, x, b, y, c, par);
    WalkTurn(a, x, b, y, c, true, false, false, true);
    SameWalk(g, g');
    var m1 := OuterR(m, y, x);
    Regrow(m, m1, top, up, g, g', x, y, par);
    var m', top' := ChildChanged(m1, x, y, par), if par == null then y else top;
    UnfoldAt(m', top', up, g', y, par);
    UnfoldAt(m', top', InL(up, y, false, c), g'.left, x, y);
    FoldUp(InL(up, y, false, c), g'.left);
    FoldUp(InL(InL(up, y, false, c), x, true, b), a);
    assert m'[x].left == node;
  }

  lemma {:induction false} Case1LShort(m: map<Node, Cell>, top: Node?, c: Context, t: Tree, node: Node?, parent: Node,
                                       s: seq<Node>)
    requires Short(m, top, c, t, node, parent, s) && c.InL? && IsRed(c.sibling)
    ensures parent in m && MayTurn(m, c.sibling.node, parent, Get(m, c.sibling.node).left)
    ensures var y, par := c.sibling.node, m[parent].parent;
            Short(ChildChanged(OuterR(m, y, parent), parent, y, par), if par == null then y
                else top, Case1L(c), t, node, parent, s)
  {
    Case1LBalance(c, t);
    FoldAt(m, top, c, t, node, parent);
    FoldUp(c, t);
    var b := c.sibling;
    Case1LAt(m, top, c.up, t, parent, b.left, b.node, b.right, node, m[parent].parent);
  }

  // Case 2: a black sibling with black children turns red, which lowers the other side too.

  ghost function Reddened(c: Context): Context
    requires !c.Top?
  {
    c.(sibling := Paint(c.sibling, true))
  }

  lemma {:induction false} Case2Balance(c: Context, t: Tree)
    requires EraseDefect(c, t) && c.sibling.T? && !c.sibling.red && !IsRed(c.sibling.left) && !IsRed(c.sibling.right)
    ensures var f := Fold(Reddened(c), t);
            && Balanced(Paint(f, false)) && BlackHeight(Paint(f, false)) == BlackHeight(t) + 1
            && (c.red ==> ContextOk(c.up, BlackHeight(t) + 1))
            && (!c.red ==> f == Paint(f, false) && ContextOk(c.up, BlackHeight(t) + 2))
  {
  }

  lemma {:induction false} Case2At(m: map<Node, Cell>, top: Node?, c: Context, t: Tree, node: Node?, parent: Node)
    requires At(m, top, c, t, node, parent) && !c.Top? && c.sibling.T?
    ensures parent in m && c.sibling.node in m
    ensures var m1 := WithParent(m, c.sibling.node, parent, true);
            At(m1, top, c.up, Fold(Reddened(c), t), parent, m[parent].parent) && m1[parent] == m[parent]
    ensures Walk(c.up, Fold(Reddened(c), t)) == Walk(c, t)
  {
    var m1 := WithParent(m, c.sibling.node, parent, true);
    var p := if c.InL? then m[c.node].right else m[c.node].left;
    LinksDomain(m, t, node, parent);
    LinksDomain(m, c.sibling, p, parent);
    HoleDomain(m, top, c.up, parent, m[parent].parent);
    LinksKeep(m, m1, t, node, parent);
    Rehang(m, m1, c.sibling, p, parent, parent, true);
    HoleKeep(m, m1, top, c.up, parent, m[parent].parent);
    assert InOrder(Paint(c.sibling, true)) == InOrder(c.sibling);
    SameWalk(c.sibling, Paint(c.sibling, true));
    FoldAt(m1, top, Reddened(c), t, node, parent);
    FoldUp(Reddened(c), t);
    assert Walk(Reddened(c), t) == Walk(c, t);
  }

  /** Painting the subtree's root does not disturb anything else. */
  lemma {:induction false} PaintAt(m: map<Node, Cell>, top: Node?, c: Context, t: Tree, p: Node, par: Node?, red: bool)
    requires At(m, top, c, t, p, par) && t.T?
    ensures p in m && At(WithParent(m, p, m[p].parent, red), top, c, Paint(t, red), p, par)
            && Walk(c, Paint(t, red)) == Walk(c, t)
  {
    var m1 := WithParent(m, p, m[p].parent, red);
    LinksDomain(m, t, p, par);
    HoleDomain(m, top, c, p, par);
    Rehang(m, m1, t, p, par, par, red);
    HoleKeep(m, m1, top, c, p, par);
    assert InOrder(Paint(t, red)) == InOrder(t);
    SameWalk(t, Paint(t, red));
  }

  /** Case 2 under a red parent ends the repair; under a black one the defect moves up, or leaves through the top. */
  lemma {:induction false} Case2Ends(m: map<Node, Cell>, top: Node?, c: Context, t: Tree, node: Node?, parent: Node,
                                     s: seq<Node>)
    requires Short(m, top, c, t, node, parent, s)
    requires c.sibling.T? && !c.sibling.red && !IsRed(c.sibling.left) && !IsRed(c.sibling.right)
    ensures parent in m && c.sibling.node in m && m[parent].red == c.red
    ensures var m1, f := WithParent(m, c.sibling.node, parent, true), Fold(Reddened(c), t);
            && m1[parent] == m[parent]
            && (c.red ==> Grown(WithParent(m1, parent, m1[parent].parent, false), top, Plug(c.up, Paint(f, false)), s))
            && (!c.red && m[parent].parent == null ==> Grown(m1, top, Plug(c.up, f), s))
            && (!c.red && m[parent].parent != null ==> Short(m1, top, c.up, f, parent, m[parent].parent, s))
  {
    var m1, f := WithParent(m, c.sibling.node, parent, true), Fold(Reddened(c), t);
    Case2Balance(c, t);
    Case2At(m, top, c, t, node, parent);
    if c.red {
      PaintAt(m1, top, c.up, f, parent, m[parent].parent, false);
      Unfocus(WithParent(m1, parent, m1[parent].parent, false), top, c.up, Paint(f, false), parent, m[parent].parent);
      PlugRedBlack(c.up, Paint(f, false));
      PlugWalk(c.up, Paint(f, false));
    } else if m[parent].parent == null {
      Unfocus(m1, top, c.up, f, parent, null);
      PlugRedBlack(c.up, f);
      PlugWalk(c.up, f);
    }
  }

  // Cases 3 and 4: a red nephew is lifted or repainted, which supplies the missing black node.

  lemma {:induction false} LiftLEnds(m: map<Node, Cell>, top: Node?, up: Context, a: Tree, x: Node, b: Tree, y: Node,
                                     c: Tree, rx: bool, par: Node?)
    requires At(m, top, up, T(a, x, rx, T(b, y, false, c)), x, par) && IsRed(c)
    requires Balanced(a) && Balanced(b) && Balanced(c) && BlackHeight(a) == BlackHeight(b) == BlackHeight(c)
             && !IsRed(a)
    requires ContextOk(up, BlackHeight(a) + if rx then 1 else 2) && (rx ==> !up.Top? && !HeadRed(up))
    ensures Grown(ChildChanged(LiftL(m, x, y), x, y, par), if par == null then y else top,
                  Plug(up, T(T(a, x, false, b), y, rx, Paint(c, false))), Walk(up, T(a, x, rx, T(b, y, false, c))))
  {
    LiftLLinks(m, a, x, b, y, c, rx, par);
    WalkTurn(a, x, b, y, Paint(c, false), false, rx, rx, false);
    assert InOrder(Paint(c, false)) == InOrder(c);
    Finish(m, LiftL(m, x, y), top, up, T(a, x, rx, T(b, y, false, c)), T(T(a, x, false, b), y, rx, Paint(c, false)), x,
      y, par);
  }

  lemma {:induction false} PrepareLiftLEnds(m: map<Node, Cell>, top: Node?, up: Context,
                                            a: Tree, x: Node, b: Tree, z: Node, c: Tree, y: Node, d: Tree, rx: bool,
                                              par: Node?)
    requires At(m, top, up, T(a, x, rx, T(T(b, z, true, c), y, false, d)), x, par)
    requires Balanced(a) && Balanced(b) && Balanced(c) && Balanced(d)
    requires BlackHeight(a) == BlackHeight(b) == BlackHeight(c) == BlackHeight(d) && !IsRed(a) && !IsRed(b)
             && !IsRed(c) && !IsRed(d)
    requires ContextOk(up, BlackHeight(a) + if rx then 1 else 2) && (rx ==> !up.Top? && !HeadRed(up))
    ensures Grown(ChildChanged(LiftL(PrepareL(m, x, y), x, z), x, z, par), if par == null then z else top,
                  Plug(up, T(T(a, x, false, b), z, rx, T(c, y, false, d))),
                    Walk(up, T(a, x, rx, T(T(b, z, true, c), y, false, d))))
  {
    PrepareLiftLLinks(m, a, x, b, z, c, y, d, rx, par);
    WalkTurnTwice(a, x, b, z, c, y, d, rx, true, false, false, rx, false);
    Finish(m, LiftL(PrepareL(m, x, y), x, z), top, up,
           T(a, x, rx, T(T(b, z, true, c), y, false, d)), T(T(a, x, false, b), z, rx, T(c, y, false, d)), x, z, par);
  }

  /** The shape that cases 3 and 4 rotate, seen from the parent's place. */
  lemma {:induction false} NephewBalance(c: Context, t: Tree)
    requires EraseDefect(c, t) && c.sibling.T? && !c.sibling.red
    ensures var b, h := c.sibling, BlackHeight(t);
            && Balanced(b.left) && Balanced(b.right) && BlackHeight(b.left) == h && BlackHeight(b.right) == h
            && ContextOk(c.up, h + if c.red then 1 else 2) && (c.red ==> !c.up.Top? && !HeadRed(c.up))
  {
  }

  lemma {:induction false} Case4LEnds(m: map<Node, Cell>, top: Node?, c: Context, t: Tree, node: Node?, parent: Node,
                                      s: seq<Node>)
    returns (t': Tree)
    requires Short(m, top, c, t, node, parent, s) && c.InL? && c.sibling.T? && !c.sibling.red && IsRed(c.sibling.right)
    ensures parent in m
    ensures var y, par := c.sibling.node, m[parent].parent;
            Grown(ChildChanged(LiftL(m, parent, y), parent, y, par), if par == null then y else top, t', s)
  {
    var b := c.sibling;
    NephewBalance(c, t);
    FoldAt(m, top, c, t, node, parent);
    FoldUp(c, t);
    LiftLEnds(m, top, c.up, t, parent, b.left, b.node, b.right, c.red, m[parent].parent);
    t' := Plug(c.up, T(T(t, parent, false, b.left), b.node, c.red, Paint(b.right, false)));
  }

  lemma {:induction false} Case3LEnds(m: map<Node, Cell>, top: Node?, c: Context, t: Tree, node: Node?, parent: Node,
                                      s: seq<Node>)
    returns (t': Tree)
    requires Short(m, top, c, t, node, parent, s) && c.InL? && c.sibling.T? && !c.sibling.red && IsRed(c.sibling.left)
             && !IsRed(c.sibling.right)
    ensures parent in m
    ensures var y, z, par := c.sibling.node, c.sibling.left.node, m[parent].parent;
            Grown(ChildChanged(LiftL(PrepareL(m, parent, y), parent, z), parent, z, par), if par == null then z
                else top, t', s)
  {
    var b := c.sibling;
    var z := b.left;
    NephewBalance(c, t);
    FoldAt(m, top, c, t, node, parent);
    FoldUp(c, t);
    PrepareLiftLEnds(m, top, c.up, t, parent, z.left, z.node, z.right, b.node, b.right, c.red, m[parent].parent);
    t' := Plug(c.up, T(T(t, parent, false, z.left), z.node, c.red, T(z.right, b.node, false, b.right)));
  }

  // The mirror image: the short subtree is a right child.

  ghost function LiftR(m: map<Node, Cell>, parent: Node, sibling: Node): (m': map<Node, Cell>)
    ensures m'.Keys == m.Keys
  {
    Swapped(LoosenR(m, parent, sibling), parent, sibling, false)
  }

  ghost function LoosenR(m: map<Node, Cell>, parent: Node, sibling: Node): (m': map<Node, Cell>)
    ensures m'.Keys == m.Keys
  {
    var tmp1, tmp2 := Get(m, sibling).left, Get(m, sibling).right;
    WithParent(WithRight(WithParentOnly(WithLeft(m, parent, tmp2), tmp2, parent), sibling, parent), tmp1, sibling,
      false)
  }

  lemma {:induction false} LoosenRKeeps(m: map<Node, Cell>, parent: Node, sibling: Node)
    requires MayLift(m, parent, sibling, Get(m, sibling).right, Get(m, sibling).left)
    ensures LoosenR(m, parent, sibling)[parent].parent == m[parent].parent
  {
  }

  ghost function PrepareR(m: map<Node, Cell>, parent: Node, sibling: Node): (m': map<Node, Cell>)
    ensures m'.Keys == m.Keys
  {
    var tmp2 := Get(m, sibling).right;
    var tmp1 := Get(m, tmp2).left;
    var m1 := WithParent(WithRight(m, sibling, tmp1), tmp1, sibling, false);
    if tmp2 == null then m1 else WithLeft(WithLeft(m1, tmp2, sibling), parent, tmp2)
  }

  lemma {:induction false} LiftRLinks(m: map<Node, Cell>, a: Tree, x: Node, b: Tree, y: Node, c: Tree, ry: bool,
                                      par: Node?)
    requires var g := T(T(a, x, false, b), y, ry, c); Links(m, g, y, par) && Distinct(g) && a.T?
    ensures var m1 := LiftR(m, y, x);
            && OnlyWrote(m, m1, Nodes(T(T(a, x, false, b), y, ry, c)))
            && Links(m1, T(Paint(a, false), x, ry, T(b, y, false, c)), x, par)
  {
    var m1 := LiftR(m, y, x);
    assert Links(m, T(a, x, false, b), m[y].left, y) && Distinct(T(a, x, false, b));
    LinksDomain(m, a, m[x].left, x);
    LinksDomain(m, b, m[x].right, x);
    LinksDomain(m, c, m[y].right, y);
    LinksKeep(m, m1, c, m[y].right, y);
    Rehang(m, m1, b, m[x].right, x, y, IsRed(b));
    Rehang(m, m1, a, m[x].left, x, x, false);
    assert Paint(b, IsRed(b)) == b;
    assert Links(m1, T(b, y, false, c), y, x);
  }

  lemma {:induction false} PrepareLiftRLinks(m: map<Node, Cell>, a: Tree, x: Node, b: Tree, z: Node, c: Tree, y: Node,
                                             d: Tree, ry: bool, par: Node?)
    requires var g := T(T(a, x, false, T(b, z, true, c)), y, ry, d); Links(m, g, y, par) && Distinct(g) && !IsRed(b)
    ensures var m1 := LiftR(PrepareR(m, y, x), y, z);
            && OnlyWrote(m, m1, Nodes(T(T(a, x, false, T(b, z, true, c)), y, ry, d)))
            && Links(m1, T(T(a, x, false, b), z, ry, T(c, y, false, d)), z, par)
  {
    var g := T(T(a, x, false, T(b, z, true, c)), y, ry, d);
    TurnTwicePieces(m, g, a, x, b, z, c, y, d, false, ry, true, y, par);
    assert Links(m, T(a, x, false, T(b, z, true, c)), m[y].left, y);
    LinksDomain(m, T(b, z, true, c), m[x].right, x);
    LinksDomain(m, b, m[z].left, z);
    LinksDomain(m, c, m[z].right, z);
    TurnTwice(m, LiftR(PrepareR(m, y, x), y, z), g, a, x, b, z, c, y, d, false, ry, true, y, par);
  }

  ghost function Case1R(c: Context): Context
    requires c.InR? && c.sibling.T?
  {
    InR(InR(c.up, c.sibling.node, c.red, c.sibling.left), c.node, true, c.sibling.right)
  }

  lemma {:induction false} Case1RBalance(c: Context, t: Tree)
    requires EraseDefect(c, t) && c.InR? && IsRed(c.sibling)
    ensures !c.red && EraseDefect(Case1R(c), t) && !IsRed(c.sibling.right) && c.sibling.right.T?
  {
  }

  lemma {:induction false} Case1RAt(m: map<Node, Cell>, top: Node?, up: Context, a: Tree, x: Node, b: Tree, y: Node,
                                    c: Tree, node: Node?, par: Node?)
    requires At(m, top, up, T(T(a, x, true, b), y, false, c), y, par) && !IsRed(b)
    requires y in m && m[y].right == node
    ensures MayTurn(m, x, y, Get(m, x).right)
    ensures var m', top' := ChildChanged(OuterL(m, x, y), y, x, par), if par == null then x else top;
            At(m', top', InR(InR(up, x, false, a), y, true, b), c, node, y)
    ensures Walk(up, T(T(a, x, true, b), y, false, c)) == Walk(InR(InR(up, x, false, a), y, true, b), c)
  {
    var g, g' := T(T(a, x, true, b), y, false, c), T(a, x, false, T(b, y, true, c));
    LinksDomain(m, T(a, x, true, b), m[y].left, y);
    LinksDomain(m, b, m[x].right, x);
    OuterLLinks(m, a, x, b, y, c, par);
    WalkTurn(a, x, b, y, c, true, false, false, true);
    SameWalk(g, g');
    var m1 := OuterL(m, x, y);
    Regrow(m, m1, top, up, g, g', y, x, par);
    var m', top' := ChildChanged(m1, y, x, par), if par == null then x else top;
    UnfoldAt(m', top', up, g', x, par);
    UnfoldAt(m', top', InR(up, x, false, a), g'.right, y, x);
    FoldUp(InR(up, x, false, a), g'.right);
    FoldUp(InR(InR(up, x, false, a), y, true, b), c);
    assert m'[y].right == node;
  }

  lemma {:induction false} Case1RShort(m: map<Node, Cell>, top: Node?, c: Context, t: Tree, node: Node?, parent: Node,
                                       s: seq<Node>)
    requires Short(m, top, c, t, node, parent, s) && c.InR? && IsRed(c.sibling)
    ensures parent in m && MayTurn(m, c.sibling.node, parent, Get(m, c.sibling.node).right)
    ensures var x, par := c.sibling.node, m[parent].parent;
            Short(ChildChanged(OuterL(m, x, parent), parent, x, par), if par == null then x
                else top, Case1R(c), t, node, parent, s)
  {
    Case1RBalance(c, t);
    FoldAt(m, top, c, t, node, parent);
    FoldUp(c, t);
    var b := c.sibling;
    Case1RAt(m, top, c.up, b.left, b.node, b.right, parent, t, node, m[parent].parent);
  }

  lemma {:induction false} LiftREnds(m: map<Node, Cell>, top: Node?, up: Context, a: Tree, x: Node, b: Tree, y: Node,
                                     c: Tree, ry: bool, par: Node?)
    requires At(m, top, up, T(T(a, x, false, b), y, ry, c), y, par) && IsRed(a)
    requires Balanced(a) && Balanced(b) && Balanced(c) && BlackHeight(a) == BlackHeight(b) == BlackHeight(c)
             && !IsRed(c)
    requires ContextOk(up, BlackHeight(c) + if ry then 1 else 2) && (ry ==> !up.Top? && !HeadRed(up))
    ensures Grown(ChildChanged(LiftR(m, y, x), y, x, par), if par == null then x else top,
                  Plug(up, T(Paint(a, false), x, ry, T(b, y, false, c))), Walk(up, T(T(a, x, false, b), y, ry, c)))
  {
    LiftRLinks(m, a, x, b, y, c, ry, par);
    WalkTurn(Paint(a, false), x, b, y, c, false, ry, ry, false);
    assert InOrder(Paint(a, false)) == InOrder(a);
    Finish(m, LiftR(m, y, x), top, up, T(T(a, x, false, b), y, ry, c), T(Paint(a, false), x, ry, T(b, y, false, c)), y,
      x, par);
  }

  lemma {:induction false} PrepareLiftREnds(m: map<Node, Cell>, top: Node?, up: Context,
                                            a: Tree, x: Node, b: Tree, z: Node, c: Tree, y: Node, d: Tree, ry: bool,
                                              par: Node?)
    requires At(m, top, up, T(T(a, x, false, T(b, z, true, c)), y, ry, d), y, par)
    requires Balanced(a) && Balanced(b) && Balanced(c) && Balanced(d)
    requires BlackHeight(a) == BlackHeight(b) == BlackHeight(c) == BlackHeight(d) && !IsRed(a) && !IsRed(b)
             && !IsRed(c) && !IsRed(d)
    requires ContextOk(up, BlackHeight(a) + if ry then 1 else 2) && (ry ==> !up.Top? && !HeadRed(up))
    ensures Grown(ChildChanged(LiftR(PrepareR(m, y, x), y, z), y, z, par), if par == null then z else top,
                  Plug(up, T(T(a, x, false, b), z, ry, T(c, y, false, d))),
                    Walk(up, T(T(a, x, false, T(b, z, true, c)), y, ry, d)))
  {
    PrepareLiftRLinks(m, a, x, b, z, c, y, d, ry, par);
    WalkTurnTwice(a, x, b, z, c, y, d, false, true, ry, false, ry, false);
    Finish(m, LiftR(PrepareR(m, y, x), y, z), top, up,
           T(T(a, x, false, T(b, z, true, c)), y, ry, d), T(T(a, x, false, b), z, ry, T(c, y, false, d)), y, z, par);
  }

  lemma {:induction false} Case4REnds(m: map<Node, Cell>, top: Node?, c: Context, t: Tree, node: Node?, parent: Node,
                                      s: seq<Node>)
    returns (t': Tree)
    requires Short(m, top, c, t, node, parent, s) && c.InR? && c.sibling.T? && !c.sibling.red && IsRed(c.sibling.left)
    ensures parent in m
    ensures var x, par := c.sibling.node, m[parent].parent;
            Grown(ChildChanged(LiftR(m, parent, x), parent, x, par), if par == null then x else top, t', s)
  {
    var b := c.sibling;
    NephewBalance(c, t);
    FoldAt(m, top, c, t, node, parent);
    FoldUp(c, t);
    LiftREnds(m, top, c.up, b.left, b.node, b.right, parent, t, c.red, m[parent].parent);
    t' := Plug(c.up, T(Paint(b.left, false), b.node, c.red, T(b.right, parent, false, t)));
  }

  lemma {:induction false} Case3REnds(m: map<Node, Cell>, top: Node?, c: Context, t: Tree, node: Node?, parent: Node,
                                      s: seq<Node>)
    returns (t': Tree)
    requires Short(m, top, c, t, node, parent, s) && c.InR? && c.sibling.T? && !c.sibling.red && IsRed(c.sibling.right)
             && !IsRed(c.sibling.left)
    ensures parent in m
    ensures var x, z, par := c.sibling.node, c.sibling.right.node, m[parent].parent;
            Grown(ChildChanged(LiftR(PrepareR(m, parent, x), parent, z), parent, z, par), if par == null then z
                else top, t', s)
  {
    var b := c.sibling;
    var z := b.right;
    NephewBalance(c, t);
    FoldAt(m, top, c, t, node, parent);
    FoldUp(c, t);
    PrepareLiftREnds(m, top, c.up, b.left, b.node, z.left, z.node, z.right, parent, t, c.red, m[parent].parent);
    t' := Plug(c.up, T(T(b.left, b.node, false, z.left), z.node, c.red, T(z.right, parent, false, t)));
  }

  // What the loop learns by looking at the sibling's children.

  ghost predicate SeesChild(m: map<Node, Cell>, t: Tree, p: Node?)
  {
    (p == null <==> t.Leaf?) && (t.T? ==> p == t.node && p in m && m[p].red == t.red)
  }

  lemma {:induction false} Nephews(m: map<Node, Cell>, top: Node?, c: Context, t: Tree, node: Node?, parent: Node,
                                   s: seq<Node>)
    requires Short(m, top, c, t, node, parent, s)
    ensures c.sibling.T? && c.sibling.node in m
    ensures var y := c.sibling.node; SeesChild(m, c.sibling.left, m[y].left)
                                     && SeesChild(m, c.sibling.right, m[y].right)
    ensures var y := c.sibling.node;
            MayLift(m, parent, y, m[y].left, m[y].right) && MayLift(m, parent, y, m[y].right, m[y].left)
  {
    LookAcross(m, top, c, t, node, parent, s);
    var b := c.sibling;
    LinksDomain(m, b.left, m[b.node].left, b.node);
    LinksDomain(m, b.right, m[b.node].right, b.node);
  }

  ghost predicate MayPrepareLiftL(m: map<Node, Cell>, parent: Node, y: Node, z: Node)
  {
    && {parent, y, z} <= m.Keys && m[y].left == z && (m[z].right != null ==> m[z].right in m)
    && var m1 := PrepareL(m, parent, y);
       m1[z].right == y && m1[parent].parent == m[parent].parent && MayLift(m1, parent, z, m1[z].left, y)
  }

  lemma {:induction false} MayPrepareL(m: map<Node, Cell>, top: Node?, c: Context, t: Tree, node: Node?, parent: Node,
                                       s: seq<Node>)
    requires Short(m, top, c, t, node, parent, s) && c.InL? && c.sibling.T? && c.sibling.left.T?
    ensures MayPrepareLiftL(m, parent, c.sibling.node, c.sibling.left.node)
  {
    Nephews(m, top, c, t, node, parent, s);
    LookAcross(m, top, c, t, node, parent, s);
    var z := c.sibling.left;
    assert Links(m, z, z.node, c.sibling.node) && Distinct(c.sibling) && Distinct(z);
    LinksDomain(m, z.left, m[z.node].left, z.node);
    LinksDomain(m, z.right, m[z.node].right, z.node);
  }

  ghost predicate MayPrepareLiftR(m: map<Node, Cell>, parent: Node, y: Node, z: Node)
  {
    && {parent, y, z} <= m.Keys && m[y].right == z && (m[z].left != null ==> m[z].left in m)
    && var m1 := PrepareR(m, parent, y);
       m1[z].left == y && m1[parent].parent == m[parent].parent && MayLift(m1, parent, z, m1[z].right, y)
  }

  lemma {:induction false} MayPrepareR(m: map<Node, Cell>, top: Node?, c: Context, t: Tree, node: Node?, parent: Node,
                                       s: seq<Node>)
    requires Short(m, top, c, t, node, parent, s) && c.InR? && c.sibling.T? && c.sibling.right.T?
    ensures MayPrepareLiftR(m, parent, c.sibling.node, c.sibling.right.node)
  {
    Nephews(m, top, c, t, node, parent, s);
    LookAcross(m, top, c, t, node, parent, s);
    var z := c.sibling.right;
    assert Links(m, z, z.node, c.sibling.node) && Distinct(c.sibling) && Distinct(z);
    LinksDomain(m, z.left, m[z.node].left, z.node);
    LinksDomain(m, z.right, m[z.node].right, z.node);
  }
}
