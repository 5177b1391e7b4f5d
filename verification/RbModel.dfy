/**
 The mathematical side of the red-black tree: colour-annotated binary trees whose
 labels are the linked nodes themselves, one-hole contexts ("zippers") that describe
 the path from the root down to a node, and the balance laws both must obey.
 */
module RbModel {
  import opened Bits

  /** The three links and the colour that `struct rb_node_` stores. */
  class Node {
    var left: Node?
    var right: Node?
    var parent: Node?
    var red: bool

    constructor ()
    {
      left, right, parent, red := null, null, null, true;
    }
  }

  datatype Tree = Leaf | T(left: Tree, node: Node, red: bool, right: Tree)

  /** A tree with one subtree missing, read from the hole upwards. */
  datatype Context =
    | Top
    | InL(up: Context, node: Node, red: bool, sibling: Tree)
    | InR(up: Context, node: Node, red: bool, sibling: Tree)

  ghost function Nodes(t: Tree): set<Node>
  {
    match t
    case Leaf => {}
    case T(l, n, _, r) => Nodes(l) + {n} + Nodes(r)
  }

  ghost function ContextNodes(c: Context): set<Node>
  {
    match c
    case Top => {}
    case InL(up, n, _, s) => ContextNodes(up) + {n} + Nodes(s)
    case InR(up, n, _, s) => ContextNodes(up) + {n} + Nodes(s)
  }

  ghost function InOrder(t: Tree): seq<Node>
  {
    match t
    case Leaf => []
    case T(l, n, _, r) => InOrder(l) + [n] + InOrder(r)
  }

  /** The nodes that come before (after) the hole in the in-order walk. */
  ghost function Before(c: Context): seq<Node>
  {
    match c
    case Top => []
    case InL(up, _, _, _) => Before(up)
    case InR(up, n, _, s) => Before(up) + InOrder(s) + [n]
  }

  ghost function After(c: Context): seq<Node>
  {
    match c
    case Top => []
    case InL(up, n, _, s) => [n] + InOrder(s) + After(up)
    case InR(up, _, _, _) => After(up)
  }

  ghost function Walk(c: Context, t: Tree): seq<Node>
  {
    Before(c) + InOrder(t) + After(c)
  }

  ghost function Plug(c: Context, t: Tree): Tree
  {
    match c
    case Top => t
    case InL(up, n, red, s) => Plug(up, T(t, n, red, s))
    case InR(up, n, red, s) => Plug(up, T(s, n, red, t))
  }

  // Every node occurs once.

  ghost predicate Distinct(t: Tree)
  {
    match t
    case Leaf => true
    case T(l, n, _, r) =>
      && Distinct(l) && Distinct(r)
      && n !in Nodes(l) && n !in Nodes(r) && Nodes(l) !! Nodes(r)
  }

  ghost predicate DistinctContext(c: Context)
  {
    match c
    case Top => true
    case InL(up, n, _, s) =>
      && DistinctContext(up) && Distinct(s)
      && n !in Nodes(s) && n !in ContextNodes(up) && Nodes(s) !! ContextNodes(up)
    case InR(up, n, _, s) =>
      && DistinctContext(up) && Distinct(s)
      && n !in Nodes(s) && n !in ContextNodes(up) && Nodes(s) !! ContextNodes(up)
  }

  ghost predicate Apart(c: Context, t: Tree)
  {
    Distinct(t) && DistinctContext(c) && Nodes(t) !! ContextNodes(c)
  }

  // Balance.

  predicate IsRed(t: Tree)
  {
    t.T? && t.red
  }

  ghost function BlackHeight(t: Tree): nat
  {
    match t
    case Leaf => 0
    case T(l, _, red, _) => BlackHeight(l) + if red then 0 else 1
  }

  ghost predicate Balanced(t: Tree)
  {
    match t
    case Leaf => true
    case T(l, _, red, r) =>
      && Balanced(l) && Balanced(r)
      && BlackHeight(l) == BlackHeight(r)
      && (red ==> !IsRed(l) && !IsRed(r))
  }

  /** The full red-black condition: black root, no red node with a red child, equal black heights. */
  ghost predicate IsRedBlack(t: Tree)
  {
    Balanced(t) && !IsRed(t)
  }

  predicate HeadRed(c: Context)
  {
    !c.Top? && c.red
  }

  /** The context is balanced for a hole of black height `h`; nothing is said about the hole's colour. */
  ghost predicate ContextOk(c: Context, h: nat)
  {
    match c
    case Top => true
    case InL(up, _, red, s) =>
      && Balanced(s) && BlackHeight(s) == h && (red ==> !IsRed(s) && !up.Top? && !HeadRed(up))
      && ContextOk(up, h + if red then 0 else 1)
    case InR(up, _, red, s) =>
      && Balanced(s) && BlackHeight(s) == h && (red ==> !IsRed(s) && !up.Top? && !HeadRed(up))
      && ContextOk(up, h + if red then 0 else 1)
  }

  // Rotations keep the in-order walk, whatever the colours.

  lemma {:induction false} WalkTurn(a: Tree, x: Node, b: Tree, y: Node, c: Tree, r1: bool, r2: bool, r3: bool, r4: bool)
    ensures InOrder(T(T(a, x, r1, b), y, r2, c)) == InOrder(T(a, x, r3, T(b, y, r4, c)))
  {
    var p, q, r := InOrder(a), InOrder(b), InOrder(c);
    assert p + [x] + q + [y] + r == p + [x] + (q + [y] + r);
  }

  lemma {:induction false} WalkTurnTwice(a: Tree, x: Node, b: Tree, z: Node, c: Tree, y: Node, d: Tree,
                                         r1: bool, r2: bool, r3: bool, r4: bool, r5: bool, r6: bool)
    ensures InOrder(T(T(a, x, r1, T(b, z, r2, c)), y, r3, d)) == InOrder(T(T(a, x, r4, b), z, r5, T(c, y, r6, d)))
    ensures InOrder(T(a, x, r1, T(T(b, z, r2, c), y, r3, d))) == InOrder(T(T(a, x, r4, b), z, r5, T(c, y, r6, d)))
  {
    WalkTurn(a, x, b, z, c, r4, r2, r1, r2);
    WalkTurn(T(a, x, r4, b), z, c, y, d, r2, r3, r5, r6);
    WalkTurn(a, x, T(b, z, r2, c), y, d, r1, r3, r1, r3);
  }

  /** Moving the focus up one level. */
  ghost function Fold(c: Context, t: Tree): Tree
    requires !c.Top?
  {
    if c.InL? then T(t, c.node, c.red, c.sibling) else T(c.sibling, c.node, c.red, t)
  }

  lemma {:induction false} WalkUp(c: Context, t: Tree)
    requires !c.Top?
    ensures Walk(c, t) == Walk(c.up, Fold(c, t))
  {
    var b, a := Before(c.up), After(c.up);
    var i, n, s := InOrder(t), [c.node], InOrder(c.sibling);
    if c.InL? {
      assert b + i + (n + s + a) == b + (i + n + s) + a;
    } else {
      assert b + s + n + i + a == b + (s + n + i) + a;
    }
  }

  lemma {:induction false} FoldUp(c: Context, t: Tree)
    requires !c.Top?
    ensures Walk(c, t) == Walk(c.up, Fold(c, t))
    ensures Apart(c, t) <==> Apart(c.up, Fold(c, t))
    ensures Plug(c, t) == Plug(c.up, Fold(c, t))
  {
    hide Walk;
    WalkUp(c, t);
  }

  lemma {:induction false} PlugWalk(c: Context, t: Tree)
    ensures InOrder(Plug(c, t)) == Walk(c, t)
    ensures Nodes(Plug(c, t)) == ContextNodes(c) + Nodes(t)
    ensures Distinct(Plug(c, t)) <==> Apart(c, t)
  {
    if !c.Top? {
      FoldUp(c, t);
      PlugWalk(c.up, Fold(c, t));
    }
  }

  /** A balanced subtree that does not clash with its surroundings completes a red-black tree. */
  lemma {:induction false} PlugRedBlack(c: Context, t: Tree)
    requires Balanced(t) && ContextOk(c, BlackHeight(t))
    requires IsRed(t) ==> !c.Top? && !HeadRed(c)
    ensures IsRedBlack(Plug(c, t))
  {
    match c
    case Top =>
    case InL(up, n, red, s) => PlugRedBlack(up, T(t, n, red, s));
    case InR(up, n, red, s) => PlugRedBlack(up, T(s, n, red, t));
  }

  /** Conversely, cutting a red-black tree anywhere leaves both pieces balanced. */
  lemma {:induction false} CutRedBlack(c: Context, t: Tree)
    requires IsRedBlack(Plug(c, t))
    ensures Balanced(t) && ContextOk(c, BlackHeight(t))
    ensures IsRed(t) ==> !c.Top? && !HeadRed(c)
  {
    match c
    case Top =>
    case InL(up, n, red, s) => CutRedBlack(up, T(t, n, red, s));
    case InR(up, n, red, s) => CutRedBlack(up, T(s, n, red, t));
  }

  /** Every node of a tree sits at the root of some subtree. */
  lemma {:induction false} Focus(c: Context, t: Tree, x: Node) returns (c': Context, t': Tree)
    requires x in Nodes(t)
    ensures t'.T? && t'.node == x && Plug(c', t') == Plug(c, t)
    decreases t
  {
    if t.node == x {
      c', t' := c, t;
    } else if x in Nodes(t.left) {
      c', t' := Focus(InL(c, t.node, t.red, t.right), t.left, x);
    } else {
      c', t' := Focus(InR(c, t.node, t.red, t.left), t.right, x);
    }
  }

  // The red-black condition in terms of paths; a step is true if it goes right.

  /** Where a path leads; it ends in a leaf at the latest. */
  ghost function End(t: Tree, path: seq<bool>): Tree
  {
    if path == [] || t.Leaf? then t else End(if path[0] then t.right else t.left, path[1..])
  }

  /** The black nodes that a path passes. */
  ghost function Blacks(t: Tree, path: seq<bool>): nat
  {
    if path == [] || t.Leaf? then 0
    else (if t.red then 0 else 1) + Blacks(if path[0] then t.right else t.left, path[1..])
  }

  ghost predicate NoTwoReds(t: Tree)
  {
    forall path | IsRed(End(t, path)) :: !IsRed(End(t, path).left) && !IsRed(End(t, path).right)
  }

  ghost predicate EvenBlacks(t: Tree)
  {
    forall p, q | End(t, p).Leaf? && End(t, q).Leaf? :: Blacks(t, p) == Blacks(t, q)
  }

  lemma {:induction false} PathBlacks(t: Tree, path: seq<bool>)
    requires Balanced(t) && End(t, path).Leaf?
    ensures Blacks(t, path) == BlackHeight(t)
  {
    if path != [] && t.T? {
      PathBlacks(if path[0] then t.right else t.left, path[1..]);
    }
  }

  lemma {:induction false} PathReds(t: Tree, path: seq<bool>)
    requires Balanced(t) && IsRed(End(t, path))
    ensures !IsRed(End(t, path).left) && !IsRed(End(t, path).right)
  {
    if path != [] {
      PathReds(if path[0] then t.right else t.left, path[1..]);
    }
  }

  /** The path that always goes left passes as many black nodes as the height counts. */
  lemma {:induction false} LeftPath(t: Tree) returns (path: seq<bool>)
    ensures End(t, path).Leaf? && Blacks(t, path) == BlackHeight(t)
  {
    path := [];
    if t.T? {
      var rest := LeftPath(t.left);
      path := [false] + rest;
      assert path[1..] == rest;
    }
  }

  lemma {:induction false} StepDown(t: Tree, right: bool, path: seq<bool>)
    requires t.T?
    ensures var c := if right then t.right else t.left;
            && End(t, [right] + path) == End(c, path)
            && Blacks(t, [right] + path) == (if t.red then 0 else 1) + Blacks(c, path)
  {
    assert ([right] + path)[1..] == path;
  }

  lemma {:induction false} ChildEven(t: Tree, right: bool)
    requires t.T? && EvenBlacks(t) && NoTwoReds(t)
    ensures EvenBlacks(if right then t.right else t.left) && NoTwoReds(if right then t.right else t.left)
  {
    var c := if right then t.right else t.left;
    forall p, q | End(c, p).Leaf? && End(c, q).Leaf? ensures Blacks(c, p) == Blacks(c, q) {
      StepDown(t, right, p);
      StepDown(t, right, q);
      assert Blacks(t, [right] + p) == Blacks(t, [right] + q);
    }
    forall path | IsRed(End(c, path)) ensures !IsRed(End(c, path).left) && !IsRed(End(c, path).right) {
      StepDown(t, right, path);
    }
  }

  lemma {:induction false} EvenBalanced(t: Tree)
    requires EvenBlacks(t) && NoTwoReds(t)
    ensures Balanced(t)
  {
    if t.T? {
      ChildEven(t, false);
      ChildEven(t, true);
      EvenBalanced(t.left);
      EvenBalanced(t.right);
      var p := LeftPath(t.left);
      var q := LeftPath(t.right);
      StepDown(t, false, p);
      StepDown(t, true, q);
      assert Blacks(t, [false] + p) == Blacks(t, [true] + q);
      assert End(t, []) == t;
    }
  }

  /** The root is black, no red node has a red child, and all paths to a leaf pass as many black nodes. */
  lemma {:induction false} RedBlackIff(t: Tree)
    ensures IsRedBlack(t) <==> !IsRed(t) && NoTwoReds(t) && EvenBlacks(t)
  {
    if Balanced(t) {
      forall p, q | End(t, p).Leaf? && End(t, q).Leaf? ensures Blacks(t, p) == Blacks(t, q) {
        PathBlacks(t, p);
        PathBlacks(t, q);
      }
      forall path | IsRed(End(t, path)) ensures !IsRed(End(t, path).left) && !IsRed(End(t, path).right) {
        PathReds(t, path);
      }
    } else if NoTwoReds(t) && EvenBlacks(t) {
      EvenBalanced(t);
    }
  }

  // The height bound.

  ghost function Height(t: Tree): nat
  {
    match t
    case Leaf => 0
    case T(l, _, _, r) => 1 + if Height(l) < Height(r) then Height(r) else Height(l)
  }

  lemma {:induction false} BlackHeightBounds(t: Tree)
    requires Balanced(t)
    ensures Pow2(BlackHeight(t)) <= |InOrder(t)| + 1
    ensures Height(t) <= 2 * BlackHeight(t) + if IsRed(t) then 1 else 0
  {
    match t
    case Leaf =>
    case T(l, _, _, r) =>
      BlackHeightBounds(l);
      BlackHeightBounds(r);
  }

  /** height <= 2 * log2(size + 1), written without logarithms. */
  lemma {:induction false} HeightBound(t: Tree)
    requires IsRedBlack(t)
    ensures Pow2((Height(t) + 1) / 2) <= |InOrder(t)| + 1
  {
    BlackHeightBounds(t);
    Pow2Monotone((Height(t) + 1) / 2, BlackHeight(t));
  }

  lemma {:induction false} PathHeight(t: Tree, path: seq<bool>)
    requires End(t, path).T?
    ensures |path| < Height(t)
  {
    if path != [] {
      PathHeight(if path[0] then t.right else t.left, path[1..]);
    }
  }

  /** The same for every node: it lies less than 2 * log2(size + 1) steps below the root. */
  lemma {:induction false} DepthBound(t: Tree, path: seq<bool>)
    requires IsRedBlack(t) && End(t, path).T?
    ensures Pow2((|path| + 2) / 2) <= |InOrder(t)| + 1
  {
    PathHeight(t, path);
    HeightBound(t);
    Pow2Monotone((|path| + 2) / 2, (Height(t) + 1) / 2);
  }

  // Search order.

  /** `cmp` orders the given nodes: irreflexive, transitive, and "neither less" is an equivalence. */
  ghost predicate OrderOn(cmp: (Node, Node) -> bool, s: set<Node>)
  {
    && (forall a <- s :: !cmp(a, a))
    && (forall a <- s, b <- s, c <- s :: cmp(a, b) && cmp(b, c) ==> cmp(a, c))
    && (forall a <- s, b <- s, c <- s :: !cmp(a, b) && !cmp(b, c) ==> !cmp(a, c))
  }

  ghost predicate Sorted(cmp: (Node, Node) -> bool, s: seq<Node>)
  {
    forall i, j :: 0 <= i < j < |s| ==> cmp(s[i], s[j])
  }

  /** `s'` is `s` with `x` added in one place. */
  ghost predicate InsertedInto(s: seq<Node>, x: Node, s': seq<Node>)
  {
    exists i :: 0 <= i <= |s| && s' == s[..i] + [x] + s[i..]
  }

  // Two trees with the same in-order walk have the same nodes, each once in both or in neither.

  ghost predicate NoDup(s: seq<Node>)
  {
    forall i, j :: 0 <= i < j < |s| ==> s[i] != s[j]
  }

  ghost function Elements(s: seq<Node>): set<Node>
  {
    set x | x in s
  }

  lemma {:induction false} InOrderNodes(t: Tree)
    ensures Nodes(t) == Elements(InOrder(t))
  {
    if t.T? {
      InOrderNodes(t.left);
      InOrderNodes(t.right);
    }
  }

  lemma {:induction false} NoDupSplit(a: seq<Node>, n: Node, b: seq<Node>)
    ensures NoDup(a + [n] + b) <==>
            NoDup(a) && NoDup(b) && n !in a && n !in b && forall x :: x in a ==> x !in b
  {
    var s := a + [n] + b;
    assert forall i :: 0 <= i < |a| ==> s[i] == a[i];
    assert s[|a|] == n;
    assert forall i :: 0 <= i < |b| ==> s[|a| + 1 + i] == b[i];
    if NoDup(a) && NoDup(b) && n !in a && n !in b && forall x :: x in a ==> x !in b {
      forall i, j | 0 <= i < j < |s| ensures s[i] != s[j] {
        if j > |a| { assert s[j] == b[j - |a| - 1]; }
        if i > |a| { assert s[i] == b[i - |a| - 1]; }
        if i < |a| { assert a[i] in a; }
      }
    }
  }

  lemma {:induction false} DisjointSets(a: seq<Node>, b: seq<Node>)
    ensures Elements(a) !! Elements(b) <==> forall x :: x in a ==> x !in b
  {
    if Elements(a) !! Elements(b) {
      forall x | x in a ensures x !in b {
        assert x in Elements(a) && (x in b ==> x in Elements(b));
      }
    }
  }

  lemma {:induction false} DistinctWalk(t: Tree)
    ensures Distinct(t) <==> NoDup(InOrder(t))
  {
    match t
    case Leaf =>
    case T(l, n, _, r) =>
      DistinctWalk(l);
      DistinctWalk(r);
      InOrderNodes(l);
      InOrderNodes(r);
      NoDupSplit(InOrder(l), n, InOrder(r));
      DisjointSets(InOrder(l), InOrder(r));
  }

  lemma {:induction false} SameWalk(t: Tree, t': Tree)
    requires InOrder(t) == InOrder(t')
    ensures Nodes(t) == Nodes(t') && (Distinct(t) <==> Distinct(t'))
  {
    InOrderNodes(t);
    InOrderNodes(t');
    DistinctWalk(t);
    DistinctWalk(t');
  }

  // Memory: what the link fields of the nodes hold.

  datatype Cell = Cell(left: Node?, right: Node?, parent: Node?, red: bool)

  /** The links reachable from `p` (whose parent is `par`) spell out `t`. */
  ghost predicate Links(m: map<Node, Cell>, t: Tree, p: Node?, par: Node?)
  {
    match t
    case Leaf => p == null
    case T(l, n, red, r) =>
      && p == n && n in m && m[n].parent == par && m[n].red == red
      && Links(m, l, m[n].left, n) && Links(m, r, m[n].right, n)
  }

  /** The links from `top` down to the hole spell out `c`; the hole holds `p` under `par`. */
  ghost predicate Hole(m: map<Node, Cell>, top: Node?, c: Context, p: Node?, par: Node?)
  {
    match c
    case Top => par == null && top == p
    case InL(up, n, red, s) =>
      && par == n && n in m && m[n].left == p && m[n].red == red
      && Links(m, s, m[n].right, n) && Hole(m, top, up, n, m[n].parent)
    case InR(up, n, red, s) =>
      && par == n && n in m && m[n].right == p && m[n].red == red
      && Links(m, s, m[n].left, n) && Hole(m, top, up, n, m[n].parent)
  }

  ghost predicate At(m: map<Node, Cell>, top: Node?, c: Context, t: Tree, p: Node?, par: Node?)
  {
    Apart(c, t) && Links(m, t, p, par) && Hole(m, top, c, p, par)
  }

  /** The tree hanging from `top` is `t`. */
  ghost predicate Represents(m: map<Node, Cell>, top: Node?, t: Tree)
  {
    Distinct(t) && Links(m, t, top, null)
  }

  /** The tree hanging from `top` is the red-black tree `t`, and its in-order walk is `s`. */
  ghost predicate Grown(m: map<Node, Cell>, top: Node?, t: Tree, s: seq<Node>)
  {
    Represents(m, top, t) && IsRedBlack(t) && InOrder(t) == s
  }

  /** Only the cells of nodes in `s` may differ. */
  ghost predicate OnlyWrote(m: map<Node, Cell>, m': map<Node, Cell>, s: set<Node?>)
  {
    m'.Keys == m.Keys && forall n <- m.Keys :: n !in s ==> m'[n] == m[n]
  }

  ghost function Paint(t: Tree, red: bool): Tree
  {
    if t.T? then t.(red := red) else t
  }

  lemma {:induction false} LinksKeep(m: map<Node, Cell>, m': map<Node, Cell>, t: Tree, p: Node?, par: Node?)
    requires Links(m, t, p, par) && forall n <- Nodes(t) :: n in m && n in m' && m'[n] == m[n]
    ensures Links(m', t, p, par)
  {
    if t.T? {
      assert t.node in Nodes(t);
      LinksKeep(m, m', t.left, m[t.node].left, t.node);
      LinksKeep(m, m', t.right, m[t.node].right, t.node);
    }
  }

  lemma {:induction false} LinksDomain(m: map<Node, Cell>, t: Tree, p: Node?, par: Node?)
    requires Links(m, t, p, par)
    ensures Nodes(t) <= m.Keys
    ensures t.T? ==> p == t.node
  {
    if t.T? {
      LinksDomain(m, t.left, m[t.node].left, t.node);
      LinksDomain(m, t.right, m[t.node].right, t.node);
    }
  }

  /** A subtree may get a new parent and a new root colour; nothing below its root changes. */
  lemma {:induction false} Rehang(m: map<Node, Cell>, m': map<Node, Cell>, t: Tree, p: Node?, was: Node?, par: Node?,
                                  red: bool)
    requires Links(m, t, p, was) && Distinct(t)
    requires forall n <- Nodes(t) ::
               n in m && n in m' && m'[n] == if n == p then m[n].(parent := par, red := red) else m[n]
    ensures Links(m', Paint(t, red), p, par)
  {
    if t.T? {
      assert t.node in Nodes(t);
      LinksKeep(m, m', t.left, m[t.node].left, t.node);
      LinksKeep(m, m', t.right, m[t.node].right, t.node);
    }
  }

  lemma {:induction false} HoleKeep(m: map<Node, Cell>, m': map<Node, Cell>, top: Node?, c: Context, p: Node?,
                                    par: Node?)
    requires Hole(m, top, c, p, par) && forall n <- ContextNodes(c) :: n in m && n in m' && m'[n] == m[n]
    ensures Hole(m', top, c, p, par)
  {
    if !c.Top? {
      assert c.node in ContextNodes(c);
      LinksKeep(m, m', c.sibling, if c.InL? then m[c.node].right else m[c.node].left, c.node);
      HoleKeep(m, m', top, c.up, c.node, m[c.node].parent);
    }
  }

  lemma {:induction false} HoleDomain(m: map<Node, Cell>, top: Node?, c: Context, p: Node?, par: Node?)
    requires Hole(m, top, c, p, par)
    ensures ContextNodes(c) <= m.Keys
  {
    if !c.Top? {
      LinksDomain(m, c.sibling, if c.InL? then m[c.node].right else m[c.node].left, c.node);
      HoleDomain(m, top, c.up, c.node, m[c.node].parent);
    }
  }

  /** What the hole's owner must hold once its child `p` has been replaced by `q`. */
  ghost function Rewired(m: map<Node, Cell>, c: Context, q: Node?): (m': map<Node, Cell>)
    requires !c.Top? ==> c.node in m
    ensures m'.Keys == m.Keys
  {
    match c
    case Top => m
    case InL(_, n, _, _) => m[n := m[n].(left := q)]
    case InR(_, n, _, _) => m[n := m[n].(right := q)]
  }

  lemma {:induction false} HoleRewire(m: map<Node, Cell>, top: Node?, c: Context, p: Node?, par: Node?, q: Node?)
    requires Hole(m, top, c, p, par) && DistinctContext(c)
    ensures Hole(Rewired(m, c, q), if c.Top? then q else top, c, q, par)
  {
    if !c.Top? {
      var m' := Rewired(m, c, q);
      HoleDomain(m, top, c, p, par);
      LinksKeep(m, m', c.sibling, if c.InL? then m[c.node].right else m[c.node].left, c.node);
      HoleKeep(m, m', top, c.up, c.node, m[c.node].parent);
    }
  }

  lemma {:induction false} FoldAt(m: map<Node, Cell>, top: Node?, c: Context, t: Tree, p: Node?, par: Node?)
    requires At(m, top, c, t, p, par) && !c.Top?
    ensures par == c.node && At(m, top, c.up, Fold(c, t), par, m[c.node].parent)
  {
    FoldUp(c, t);
  }

  /** Moving the focus down one level. */
  lemma {:induction false} UnfoldAt(m: map<Node, Cell>, top: Node?, c: Context, t: Tree, p: Node?, par: Node?)
    requires At(m, top, c, t, p, par) && t.T?
    ensures p == t.node && p in m
    ensures At(m, top, InL(c, t.node, t.red, t.right), t.left, m[p].left, p)
    ensures At(m, top, InR(c, t.node, t.red, t.left), t.right, m[p].right, p)
  {
    FoldUp(InL(c, t.node, t.red, t.right), t.left);
    FoldUp(InR(c, t.node, t.red, t.left), t.right);
  }

  /** Comparing pointers tells on which side of its parent a node hangs. */
  lemma {:induction false} Side(m: map<Node, Cell>, top: Node?, c: Context, t: Tree, p: Node, par: Node?)
    requires At(m, top, c, t, p, par) && !c.Top?
    ensures c.node in m && (m[c.node].left == p <==> c.InL?) && (m[c.node].right == p <==> c.InR?)
  {
    LinksDomain(m, c.sibling, if c.InL? then m[c.node].right else m[c.node].left, c.node);
  }

  lemma {:induction false} Unfocus(m: map<Node, Cell>, top: Node?, c: Context, t: Tree, p: Node?, par: Node?)
    requires At(m, top, c, t, p, par)
    ensures Represents(m, top, Plug(c, t))
  {
    if !c.Top? {
      FoldAt(m, top, c, t, p, par);
      Unfocus(m, top, c.up, Fold(c, t), par, m[c.node].parent);
    }
  }

  lemma {:induction false} Refocus(m: map<Node, Cell>, top: Node?, c: Context, t: Tree) returns (p: Node?, par: Node?)
    requires Represents(m, top, Plug(c, t))
    ensures At(m, top, c, t, p, par)
  {
    if c.Top? {
      p, par := top, null;
    } else {
      var q, _ := Refocus(m, top, c.up, Fold(c, t));
      p, par := if c.InL? then m[c.node].left else m[c.node].right, q;
      FoldUp(c, t);
    }
  }

  // Reads and in-place writes, seen as functions of memory. They are total: writing a
  // node outside the recorded memory leaves the record alone.

  ghost function Get(m: map<Node, Cell>, n: Node?): Cell
  {
    if n != null && n in m then m[n] else Cell(null, null, null, false)
  }

  ghost function WithLeft(m: map<Node, Cell>, n: Node?, x: Node?): (m': map<Node, Cell>)
    ensures m'.Keys == m.Keys
  {
    if n != null && n in m then m[n := m[n].(left := x)] else m
  }

  ghost function WithRight(m: map<Node, Cell>, n: Node?, x: Node?): (m': map<Node, Cell>)
    ensures m'.Keys == m.Keys
  {
    if n != null && n in m then m[n := m[n].(right := x)] else m
  }

  ghost function WithParent(m: map<Node, Cell>, n: Node?, p: Node?, red: bool): (m': map<Node, Cell>)
    ensures m'.Keys == m.Keys
  {
    if n != null && n in m then m[n := m[n].(parent := p, red := red)] else m
  }

  ghost function WithParentOnly(m: map<Node, Cell>, n: Node?, p: Node?): (m': map<Node, Cell>)
    ensures m'.Keys == m.Keys
  {
    if n != null && n in m then m[n := m[n].(parent := p)] else m
  }

  ghost function ChildChanged(m: map<Node, Cell>, was: Node?, now: Node?, parent: Node?): (m': map<Node, Cell>)
    ensures m'.Keys == m.Keys
  {
    if Get(m, parent).left == was then WithLeft(m, parent, now) else WithRight(m, parent, now)
  }

  lemma {:induction false} ChildChangedInContext(m: map<Node, Cell>, top: Node?, up: Context, was: Node, now: Node?,
                                                 par: Node?)
    requires Hole(m, top, up, was, par) && was !in ContextNodes(up)
    ensures (par == null <==> up.Top?) && (par != null ==> par in m)
    ensures ChildChanged(m, was, now, par) == Rewired(m, up, now)
  {
    if up.InR? {
      LinksDomain(m, up.sibling, m[par].left, par);
    }
  }

  /**
   Replacing the subtree `g` at `was` by `g'` at `now`, with the same in-order walk, when all
   other writes stayed inside `g`: the links still spell out one tree, walked in the same order.
   */
  lemma {:induction false} Regrow(m: map<Node, Cell>, m1: map<Node, Cell>, top: Node?, up: Context,
                                  g: Tree, g': Tree, was: Node, now: Node?, par: Node?)
    requires At(m, top, up, g, was, par) && was in Nodes(g)
    requires OnlyWrote(m, m1, Nodes(g)) && Links(m1, g', now, par) && Nodes(g') <= Nodes(g) && Distinct(g')
    ensures Hole(m1, top, up, was, par) && was !in ContextNodes(up)
    ensures (par == null <==> up.Top?) && (par != null ==> par in m1)
    ensures At(ChildChanged(m1, was, now, par), if par == null then now else top, up, g', now, par)
    ensures ChildChanged(m1, was, now, par).Keys == m.Keys
  {
    HoleDomain(m, top, up, was, par);
    HoleKeep(m, m1, top, up, was, par);
    ChildChangedInContext(m1, top, up, was, now, par);
    HoleRewire(m1, top, up, was, par, now);
    LinksDomain(m1, g', now, par);
    LinksKeep(m1, Rewired(m1, up, now), g', now, par);
  }

  /** Taking a node out of a sorted walk leaves it sorted. */
  lemma {:induction false} RemoveKeepsSorted(cmp: (Node, Node) -> bool, s': seq<Node>, x: Node, s: seq<Node>)
    requires InsertedInto(s', x, s) && Sorted(cmp, s)
    ensures Sorted(cmp, s')
  {
    var k :| 0 <= k <= |s'| && s == s'[..k] + [x] + s'[k..];
    forall i, j | 0 <= i < j < |s'| ensures cmp(s'[i], s'[j]) {
      assert s'[i] == s[if i < k then i else i + 1] && s'[j] == s[if j < k then j else j + 1];
    }
  }
}
