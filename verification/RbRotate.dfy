/**
 What the rotations of the fix-up loops do to memory, independently of balance:
 each lemma starts from the cells before and after a group of writes and concludes
 which tree the links spell out afterwards.
 */
module RbRotate {
  import opened RbModel

  /** `n`, if there is one, got the parent `par` and nothing else. */
  ghost predicate Moved(m: map<Node, Cell>, m': map<Node, Cell>, n: Node?, par: Node)
    requires m'.Keys == m.Keys
  {
    n != null && n in m ==> m'[n] == m[n].(parent := par)
  }

  lemma {:induction false} Kept(m: map<Node, Cell>, m': map<Node, Cell>, s: set<Node?>, t: Tree, p: Node?, par: Node?)
    requires Links(m, t, p, par) && OnlyWrote(m, m', s) && forall n <- Nodes(t) :: n !in s
    ensures Links(m', t, p, par)
  {
    LinksDomain(m, t, p, par);
    LinksKeep(m, m', t, p, par);
  }

  lemma {:induction false} MovedUnder(m: map<Node, Cell>, m': map<Node, Cell>, s: set<Node?>, t: Tree, p: Node?,
                                      was: Node?, par: Node)
    requires Links(m, t, p, was) && Distinct(t)
    requires OnlyWrote(m, m', s) && Moved(m, m', p, par) && forall n <- Nodes(t) :: n == p || n !in s
    ensures Links(m', t, p, par)
  {
    LinksDomain(m, t, p, was);
    Rehang(m, m', t, p, was, par, IsRed(t));
  }

  lemma {:induction false} TurnRight(m: map<Node, Cell>, m': map<Node, Cell>, a: Tree, x: Node, b: Tree, y: Node,
                                     c: Tree,
                                     rx: bool, ry: bool, par: Node?)
    requires var g := T(T(a, x, rx, b), y, ry, c); Links(m, g, y, par) && Distinct(g)
    requires x in m && y in m && OnlyWrote(m, m', {x, y, m[x].right}) && Moved(m, m', m[x].right, y)
    requires m'[x].left == m[x].left && m'[x].right == y
    requires m'[y].left == m[x].right && m'[y].right == m[y].right && m'[y].parent == x
    ensures Links(m', T(a, x, m'[x].red, T(b, y, m'[y].red, c)), x, m'[x].parent)
  {
    var s := {x, y, m[x].right};
    assert Links(m, T(a, x, rx, b), m[y].left, y) && Distinct(T(a, x, rx, b));
    LinksDomain(m, b, m[x].right, x);
    Kept(m, m', s, a, m[x].left, x);
    MovedUnder(m, m', s, b, m[x].right, x, y);
    Kept(m, m', s, c, m[y].right, y);
  }

  lemma {:induction false} TurnLeft(m: map<Node, Cell>, m': map<Node, Cell>, a: Tree, x: Node, b: Tree, y: Node,
                                    c: Tree,
                                    rx: bool, ry: bool, par: Node?)
    requires var g := T(a, x, rx, T(b, y, ry, c)); Links(m, g, x, par) && Distinct(g)
    requires x in m && y in m && OnlyWrote(m, m', {x, y, m[y].left}) && Moved(m, m', m[y].left, x)
    requires m'[y].left == x && m'[y].right == m[y].right
    requires m'[x].left == m[x].left && m'[x].right == m[y].left && m'[x].parent == y
    ensures Links(m', T(T(a, x, m'[x].red, b), y, m'[y].red, c), y, m'[y].parent)
  {
    var s := {x, y, m[y].left};
    assert Links(m, T(b, y, ry, c), m[x].right, x) && Distinct(T(b, y, ry, c));
    LinksDomain(m, b, m[y].left, y);
    Kept(m, m', s, a, m[x].left, x);
    MovedUnder(m, m', s, b, m[y].left, y, x);
    Kept(m, m', s, c, m[y].right, y);
  }

  /** Both double rotations lift `z` above `x` and `y`; they differ only in which of the two was on top. */
  lemma {:induction false} TurnTwice(m: map<Node, Cell>, m': map<Node, Cell>, g: Tree,
                                     a: Tree, x: Node, b: Tree, z: Node, c: Tree, y: Node, d: Tree,
                                     rx: bool, ry: bool, rz: bool, p: Node?, par: Node?)
    requires || g == T(T(a, x, rx, T(b, z, rz, c)), y, ry, d)
             || g == T(a, x, rx, T(T(b, z, rz, c), y, ry, d))
    requires Links(m, g, p, par) && Distinct(g)
    requires x in m && y in m && z in m
    requires OnlyWrote(m, m', {x, y, z, m[z].left, m[z].right})
    requires Moved(m, m', m[z].left, x) && Moved(m, m', m[z].right, y)
    requires m'[z].left == x && m'[z].right == y
    requires m'[x].left == m[x].left && m'[x].right == m[z].left && m'[x].parent == z
    requires m'[y].left == m[z].right && m'[y].right == m[y].right && m'[y].parent == z
    ensures Links(m', T(T(a, x, m'[x].red, b), z, m'[z].red, T(c, y, m'[y].red, d)), z, m'[z].parent)
  {
    var s := {x, y, z, m[z].left, m[z].right};
    TurnTwicePieces(m, g, a, x, b, z, c, y, d, rx, ry, rz, p, par);
    LinksDomain(m, b, m[z].left, z);
    LinksDomain(m, c, m[z].right, z);
    Kept(m, m', s, a, m[x].left, x);
    MovedUnder(m, m', s, b, m[z].left, z, x);
    MovedUnder(m, m', s, c, m[z].right, z, y);
    Kept(m, m', s, d, m[y].right, y);
  }

  lemma {:induction false} TurnTwicePieces(m: map<Node, Cell>, g: Tree,
                                           a: Tree, x: Node, b: Tree, z: Node, c: Tree, y: Node, d: Tree,
                                           rx: bool, ry: bool, rz: bool, p: Node?, par: Node?)
    requires || g == T(T(a, x, rx, T(b, z, rz, c)), y, ry, d)
             || g == T(a, x, rx, T(T(b, z, rz, c), y, ry, d))
    requires Links(m, g, p, par) && Distinct(g)
    ensures x in m && y in m && z in m
    ensures Links(m, a, m[x].left, x) && Links(m, b, m[z].left, z) && Links(m, c, m[z].right, z)
            && Links(m, d, m[y].right, y)
    ensures Distinct(a) && Distinct(b) && Distinct(c) && Distinct(d)
    ensures Nodes(a) !! {x, y, z} && Nodes(b) !! {x, y, z} && Nodes(c) !! {x, y, z} && Nodes(d) !! {x, y, z}
    ensures Nodes(a) !! Nodes(b) !! Nodes(c) !! Nodes(d)
  {
    var i := T(b, z, rz, c);
    if g == T(T(a, x, rx, i), y, ry, d) {
      assert Links(m, T(a, x, rx, i), m[y].left, y) && Distinct(T(a, x, rx, i));
      assert Links(m, i, m[x].right, x) && Distinct(i);
    } else {
      assert Links(m, T(i, y, ry, d), m[x].right, x) && Distinct(T(i, y, ry, d));
      assert Links(m, i, m[y].left, y) && Distinct(i);
    }
  }

  // The writes of the insertion cases, as functions of memory. `L` is the branch in which
  // the parent is a left child, `R` its mirror image.

  ghost function InnerL(m: map<Node, Cell>, node: Node, parent: Node): (m': map<Node, Cell>)
    ensures m'.Keys == m.Keys
  {
    var tmp := Get(m, node).left;
    WithParent(WithLeft(WithParent(WithRight(m, parent, tmp), tmp, parent, false), node, parent), parent, node, true)
  }

  ghost function InnerR(m: map<Node, Cell>, node: Node, parent: Node): (m': map<Node, Cell>)
    ensures m'.Keys == m.Keys
  {
    var tmp := Get(m, node).right;
    WithParent(WithRight(WithParent(WithLeft(m, parent, tmp), tmp, parent, false), node, parent), parent, node, true)
  }

  /** `__rb_rotate_set_parents` without its final `__rb_change_child`. */
  ghost function Swapped(m: map<Node, Cell>, was: Node, now: Node, red: bool): (m': map<Node, Cell>)
    ensures m'.Keys == m.Keys
  {
    WithParent(WithParent(m, now, Get(m, was).parent, Get(m, was).red), was, now, red)
  }

  ghost function OuterL(m: map<Node, Cell>, parent: Node, gparent: Node): (m': map<Node, Cell>)
    ensures m'.Keys == m.Keys
  {
    var tmp := Get(m, parent).right;
    Swapped(WithRight(WithParent(WithLeft(m, gparent, tmp), tmp, gparent, false), parent, gparent), gparent, parent,
      true)
  }

  ghost function OuterR(m: map<Node, Cell>, parent: Node, gparent: Node): (m': map<Node, Cell>)
    ensures m'.Keys == m.Keys
  {
    var tmp := Get(m, parent).left;
    Swapped(WithLeft(WithParent(WithRight(m, gparent, tmp), tmp, gparent, false), parent, gparent), gparent, parent,
      true)
  }

  /** The whole black-uncle branch up to its final `__rb_change_child`, and the node that ends on top. */
  ghost function RotateL(m: map<Node, Cell>, node: Node, parent: Node, gparent: Node): (m': map<Node, Cell>)
    ensures m'.Keys == m.Keys
  {
    if Get(m, parent).right == node then OuterL(InnerL(m, node, parent), node, gparent) else OuterL(m, parent, gparent)
  }

  ghost function RotateR(m: map<Node, Cell>, node: Node, parent: Node, gparent: Node): (m': map<Node, Cell>)
    ensures m'.Keys == m.Keys
  {
    if Get(m, parent).left == node then OuterR(InnerR(m, node, parent), node, gparent) else OuterR(m, parent, gparent)
  }

  ghost function Lifted(inner: bool, node: Node, parent: Node): Node
  {
    if inner then node else parent
  }

  lemma {:induction false} OuterLLinks(m: map<Node, Cell>, a: Tree, x: Node, b: Tree, y: Node, c: Tree, par: Node?)
    requires var g := T(T(a, x, true, b), y, false, c); Links(m, g, y, par) && Distinct(g) && !IsRed(b)
    ensures var m1 := OuterL(m, x, y);
            && OnlyWrote(m, m1, Nodes(T(T(a, x, true, b), y, false, c)))
            && Links(m1, T(a, x, false, T(b, y, true, c)), x, par)
  {
    assert Links(m, T(a, x, true, b), m[y].left, y) && Distinct(T(a, x, true, b));
    LinksDomain(m, b, m[x].right, x);
    TurnRight(m, OuterL(m, x, y), a, x, b, y, c, true, false, par);
  }

  lemma {:induction false} OuterRLinks(m: map<Node, Cell>, a: Tree, x: Node, b: Tree, y: Node, c: Tree, par: Node?)
    requires var g := T(a, x, false, T(b, y, true, c)); Links(m, g, x, par) && Distinct(g) && !IsRed(b)
    ensures var m1 := OuterR(m, y, x);
            && OnlyWrote(m, m1, Nodes(T(a, x, false, T(b, y, true, c))))
            && Links(m1, T(T(a, x, true, b), y, false, c), y, par)
  {
    assert Links(m, T(b, y, true, c), m[x].right, x) && Distinct(T(b, y, true, c));
    LinksDomain(m, b, m[y].left, y);
    TurnLeft(m, OuterR(m, y, x), a, x, b, y, c, false, true, par);
  }

  lemma {:induction false} InnerLLinks(m: map<Node, Cell>, a: Tree, x: Node, b: Tree, z: Node, c: Tree, y: Node,
                                       d: Tree, par: Node?)
    requires var g := T(T(a, x, true, T(b, z, true, c)), y, false, d); Links(m, g, y, par) && Distinct(g)
    requires !IsRed(b) && !IsRed(c)
    ensures var m1 := OuterL(InnerL(m, z, x), z, y);
            && OnlyWrote(m, m1, Nodes(T(T(a, x, true, T(b, z, true, c)), y, false, d)))
            && Links(m1, T(T(a, x, true, b), z, false, T(c, y, true, d)), z, par)
  {
    var g := T(T(a, x, true, T(b, z, true, c)), y, false, d);
    TurnTwicePieces(m, g, a, x, b, z, c, y, d, true, false, true, y, par);
    LinksDomain(m, b, m[z].left, z);
    LinksDomain(m, c, m[z].right, z);
    TurnTwice(m, OuterL(InnerL(m, z, x), z, y), g, a, x, b, z, c, y, d, true, false, true, y, par);
  }

  lemma {:induction false} InnerRLinks(m: map<Node, Cell>, a: Tree, x: Node, b: Tree, z: Node, c: Tree, y: Node,
                                       d: Tree, par: Node?)
    requires var g := T(a, x, false, T(T(b, z, true, c), y, true, d)); Links(m, g, x, par) && Distinct(g)
    requires !IsRed(b) && !IsRed(c)
    ensures var m1 := OuterR(InnerR(m, z, y), z, x);
            && OnlyWrote(m, m1, Nodes(T(a, x, false, T(T(b, z, true, c), y, true, d))))
            && Links(m1, T(T(a, x, true, b), z, false, T(c, y, true, d)), z, par)
  {
    var g := T(a, x, false, T(T(b, z, true, c), y, true, d));
    TurnTwicePieces(m, g, a, x, b, z, c, y, d, false, true, true, x, par);
    LinksDomain(m, b, m[z].left, z);
    LinksDomain(m, c, m[z].right, z);
    TurnTwice(m, OuterR(InnerR(m, z, y), z, x), g, a, x, b, z, c, y, d, false, true, true, x, par);
  }

  lemma {:induction false} RecolourLinks(m: map<Node, Cell>, m': map<Node, Cell>, a: Tree, x: Node, b: Tree, z: Node,
                                         c: Tree, y: Node, d: Tree, par: Node?)
    requires var g := T(T(a, x, true, b), z, false, T(c, y, true, d)); Links(m, g, z, par) && Distinct(g)
    requires OnlyWrote(m, m', {x, y, z}) && x in m && y in m && z in m
    requires m'[x] == m[x].(red := false) && m'[y] == m[y].(red := false) && m'[z] == m[z].(red := true)
    ensures Links(m', T(T(a, x, false, b), z, true, T(c, y, false, d)), z, par)
  {
    var s := {x, y, z};
    var l, r := T(a, x, true, b), T(c, y, true, d);
    assert Links(m, l, m[z].left, z) && Distinct(l) && Links(m, r, m[z].right, z) && Distinct(r);
    Kept(m, m', s, a, m[x].left, x);
    Kept(m, m', s, b, m[x].right, x);
    Kept(m, m', s, c, m[y].left, y);
    Kept(m, m', s, d, m[y].right, y);
    assert Links(m', T(a, x, false, b), x, z) && Links(m', T(c, y, false, d), y, z);
  }

  /** What one rotation at `gparent` needs in order to be allowed to write. */
  ghost predicate MayTurn(m: map<Node, Cell>, parent: Node, gparent: Node, tmp: Node?)
  {
    && {parent, gparent} <= m.Keys && parent != gparent && tmp != gparent
    && (tmp != null ==> tmp in m) && (m[gparent].parent != null ==> m[gparent].parent in m)
  }

  /** The end of a repair: memory differs only inside `g`, whose replacement fits the context. */
  lemma {:induction false} Finish(m: map<Node, Cell>, m1: map<Node, Cell>, top: Node?, up: Context, g: Tree, g': Tree,
                                  was: Node, now: Node, par: Node?)
    requires At(m, top, up, g, was, par) && was in Nodes(g)
    requires OnlyWrote(m, m1, Nodes(g)) && Links(m1, g', now, par) && InOrder(g') == InOrder(g)
    requires Balanced(g') && ContextOk(up, BlackHeight(g')) && (IsRed(g') ==> !up.Top? && !HeadRed(up))
    ensures par != null ==> par in m
    ensures Grown(ChildChanged(m1, was, now, par), if par == null then now else top, Plug(up, g'), Walk(up, g))
  {
    SameWalk(g, g');
    Regrow(m, m1, top, up, g, g', was, now, par);
    Unfocus(ChildChanged(m1, was, now, par), if par == null then now else top, up, g', now, par);
    PlugRedBlack(up, g');
    PlugWalk(up, g');
  }
}
