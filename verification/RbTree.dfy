/**
 The linked red-black tree: parent pointers and colours rewritten in place by
 iterative fix-up loops. Each loop carries a ghost zipper (context, subtree) that
 says which tree the links currently spell out and where its one defect is.
 */
module RbTree {
  import opened RbModel
  import opened RbRotate
  import opened RbInsert
  import opened RbErase
  import opened RbUnlink

  ghost function Opt(n: Node?): set<Node>
  {
    if n == null then {} else {n}
  }

  /** `struct rb_root_`, with a ghost record of what the linked nodes hold. */
  class Root {
    var top: Node?
    ghost var m: map<Node, Cell>
    ghost var tree: Tree

    constructor ()
      ensures Valid() && tree == Leaf && m == map[]
    {
      top, m, tree := null, map[], Leaf;
    }

    /** The record is accurate. */
    ghost predicate Snap()
      reads this`m, m.Keys
    {
      forall n <- m.Keys ::
        n.left == m[n].left && n.right == m[n].right && n.parent == m[n].parent && n.red == m[n].red
    }

    ghost predicate Valid()
      reads this, m.Keys
    {
      Snap() && m.Keys == Nodes(tree) && Represents(m, top, tree) && IsRedBlack(tree)
    }

    // Single writes.

    method SetLeft(n: Node, x: Node?)
      requires Snap()
      modifies this`m, n`left
      ensures Snap() && m == WithLeft(old(m), n, x) && top == old(top)
    {
      n.left := x;
      m := WithLeft(m, n, x);
    }

    method SetRight(n: Node, x: Node?)
      requires Snap()
      modifies this`m, n`right
      ensures Snap() && m == WithRight(old(m), n, x) && top == old(top)
    {
      n.right := x;
      m := WithRight(m, n, x);
    }

    method SetParentColor(n: Node?, p: Node?, red: bool)
      requires Snap()
      modifies this`m, Opt(n)`parent, Opt(n)`red
      ensures Snap() && m == WithParent(old(m), n, p, red) && top == old(top)
    {
      if n != null {
        n.parent, n.red := p, red;
        m := WithParent(m, n, p, red);
      }
    }

    method ChangeChild(was: Node, now: Node?, parent: Node?)
      requires Snap() && (parent != null ==> parent in m)
      modifies this`m, this`top, Opt(parent)`left, Opt(parent)`right
      ensures Snap() && m == ChildChanged(old(m), was, now, parent)
      ensures top == if parent == null then now else old(top)
    {
      if parent != null {
        if parent.left == was {
          SetLeft(parent, now);
        } else {
          SetRight(parent, now);
        }
      } else {
        top := now;
      }
    }

    method RotateSetParents(was: Node, now: Node, red: bool)
      requires Snap() && was in m && (was.parent != null ==> was.parent in m)
      modifies this`m, this`top, was`parent, was`red, now`parent, now`red, Opt(was.parent)`left, Opt(was.parent)`right
      ensures Snap()
      ensures m == ChildChanged(Swapped(old(m), was, now, red), was, now, old(m[was]).parent)
      ensures top == if old(m[was]).parent == null then now else old(top)
    {
      var parent := was.parent;
      SetParentColor(now, was.parent, was.red);
      SetParentColor(was, now, red);
      ChangeChild(was, now, parent);
    }

    // Insertion.

    method InnerStepL(node: Node, parent: Node)
      requires Snap() && {node, parent} <= m.Keys && (node.left != null ==> node.left in m)
      modifies this`m, m.Keys`left, m.Keys`right, m.Keys`parent, m.Keys`red
      ensures Snap() && m == InnerL(old(m), node, parent)
    {
      var tmp := node.left;
      SetRight(parent, tmp);
      SetParentColor(tmp, parent, false);
      SetLeft(node, parent);
      SetParentColor(parent, node, true);
    }

    method OuterStepL(parent: Node, gparent: Node, tmp: Node?)
      requires Snap() && {parent, gparent} <= m.Keys && tmp == parent.right && (tmp != null ==> tmp in m)
      requires gparent.parent != null ==> gparent.parent in m
      requires parent != gparent && tmp != gparent
      modifies this`m, this`top, m.Keys`left, m.Keys`right, m.Keys`parent, m.Keys`red
      ensures Snap() && m == ChildChanged(OuterL(old(m), parent, gparent), gparent, parent, old(m[gparent]).parent)
      ensures top == if old(m[gparent]).parent == null then parent else old(top)
    {
      SetLeft(gparent, tmp);
      SetParentColor(tmp, gparent, false);
      SetRight(parent, gparent);
      assert m[gparent].parent == old(m)[gparent].parent;
      RotateSetParents(gparent, parent, true);
    }

    method RotateStepL(node: Node, parent: Node, gparent: Node) returns (now: Node)
      requires Snap() && MayRotateL(m, node, parent, gparent)
      modifies this`m, this`top, m.Keys`left, m.Keys`right, m.Keys`parent, m.Keys`red
      ensures Snap() && now == Lifted(old(m[parent]).right == node, node, parent)
      ensures m == ChildChanged(RotateL(old(m), node, parent, gparent), gparent, now, old(m[gparent]).parent)
      ensures top == if old(m[gparent]).parent == null then now else old(top)
    {
      var tmp := parent.right;
      now := parent;
      if node == tmp {
        InnerStepL(node, parent);
        now, tmp := node, node.right;
      }
      OuterStepL(now, gparent, tmp);
    }

    /** Parent a left child of `gparent`, uncle black: one or two rotations end the repair. */
    method InsertRotateL(node: Node, parent: Node, gparent: Node, ghost c: Context, ghost t: Tree)
      requires Snap() && At(m, top, c, t, node, parent) && InsertDefect(c, t)
      requires HeadRed(c) && c.up.InL? && c.up.node == gparent && !IsRed(c.up.sibling)
      modifies this, m.Keys`left, m.Keys`right, m.Keys`parent, m.Keys`red
      ensures Snap() && m.Keys == old(m.Keys)
      ensures Grown(m, top, tree, Walk(c, t))
    {
      hide At, InsertDefect, Grown, ChildChanged, RotateL;
      ghost var t' := RotateLEnds(m, top, c, t, node, parent);
      tree := t';
      var _ := RotateStepL(node, parent, gparent);
    }

    method InnerStepR(node: Node, parent: Node)
      requires Snap() && {node, parent} <= m.Keys && (node.right != null ==> node.right in m)
      modifies this`m, m.Keys`left, m.Keys`right, m.Keys`parent, m.Keys`red
      ensures Snap() && m == InnerR(old(m), node, parent)
    {
      var tmp := node.right;
      SetLeft(parent, tmp);
      SetParentColor(tmp, parent, false);
      SetRight(node, parent);
      SetParentColor(parent, node, true);
    }

    method OuterStepR(parent: Node, gparent: Node, tmp: Node?)
      requires Snap() && {parent, gparent} <= m.Keys && tmp == parent.left && (tmp != null ==> tmp in m)
      requires gparent.parent != null ==> gparent.parent in m
      requires parent != gparent && tmp != gparent
      modifies this`m, this`top, m.Keys`left, m.Keys`right, m.Keys`parent, m.Keys`red
      ensures Snap() && m == ChildChanged(OuterR(old(m), parent, gparent), gparent, parent, old(m[gparent]).parent)
      ensures top == if old(m[gparent]).parent == null then parent else old(top)
    {
      SetRight(gparent, tmp);
      SetParentColor(tmp, gparent, false);
      SetLeft(parent, gparent);
      assert m[gparent].parent == old(m)[gparent].parent;
      RotateSetParents(gparent, parent, true);
    }

    method RotateStepR(node: Node, parent: Node, gparent: Node) returns (now: Node)
      requires Snap() && MayRotateR(m, node, parent, gparent)
      modifies this`m, this`top, m.Keys`left, m.Keys`right, m.Keys`parent, m.Keys`red
      ensures Snap() && now == Lifted(old(m[parent]).left == node, node, parent)
      ensures m == ChildChanged(RotateR(old(m), node, parent, gparent), gparent, now, old(m[gparent]).parent)
      ensures top == if old(m[gparent]).parent == null then now else old(top)
    {
      var tmp := parent.left;
      now := parent;
      if node == tmp {
        InnerStepR(node, parent);
        now, tmp := node, node.left;
      }
      OuterStepR(now, gparent, tmp);
    }

    /** Parent a right child of `gparent`, uncle black: one or two rotations end the repair. */
    method InsertRotateR(node: Node, parent: Node, gparent: Node, ghost c: Context, ghost t: Tree)
      requires Snap() && At(m, top, c, t, node, parent) && InsertDefect(c, t)
      requires HeadRed(c) && c.up.InR? && c.up.node == gparent && !IsRed(c.up.sibling)
      modifies this, m.Keys`left, m.Keys`right, m.Keys`parent, m.Keys`red
      ensures Snap() && m.Keys == old(m.Keys)
      ensures Grown(m, top, tree, Walk(c, t))
    {
      hide At, InsertDefect, Grown, ChildChanged, RotateR;
      ghost var t' := RotateREnds(m, top, c, t, node, parent);
      tree := t';
      var _ := RotateStepR(node, parent, gparent);
    }

    method Recolour(parent: Node, uncle: Node, gparent: Node)
      requires Snap() && {parent, uncle, gparent} <= m.Keys
      requires parent != uncle && parent != gparent && uncle != gparent
      requires parent.parent == gparent && uncle.parent == gparent
      modifies this`m, parent`parent, parent`red, uncle`parent, uncle`red, gparent`parent, gparent`red
      ensures Snap() && OnlyWrote(old(m), m, {parent, uncle, gparent})
      ensures m[parent] == old(m)[parent].(red := false) && m[uncle] == old(m)[uncle].(red := false)
      ensures m[gparent] == old(m)[gparent].(red := true)
    {
      SetParentColor(uncle, gparent, false);
      SetParentColor(parent, gparent, false);
      SetParentColor(gparent, gparent.parent, true);
    }

    /** A red parent: recolour and go on from the grandparent, or rotate and stop. */
    method InsertClash(node: Node, parent: Node, ghost c: Context, ghost t: Tree, ghost s: seq<Node>)
        returns (next: Node?)
      requires Snap() && Broken(m, top, c, t, node, parent, s) && HeadRed(c)
      modifies this, m.Keys`left, m.Keys`right, m.Keys`parent, m.Keys`red
      ensures Snap() && m.Keys == old(m.Keys) && !c.up.Top?
      ensures next == null ==> Grown(m, top, tree, s)
      ensures next != null ==> next in m && Broken(m, top, c.up.up, Recoloured(c, t), next, next.parent, s)
    {
      LookUp(m, top, c, t, node, parent);
      ghost var m0 := m;
      var gparent := parent.parent;
      var tmp := gparent.right;
      next := null;
      if parent != tmp {
        if tmp != null && tmp.red {
          Recolour(parent, tmp, gparent);
          next := gparent;
        } else {
          InsertRotateL(node, parent, gparent, c, t);
        }
      } else {
        tmp := gparent.left;
        if tmp != null && tmp.red {
          Recolour(parent, tmp, gparent);
          next := gparent;
        } else {
          InsertRotateR(node, parent, gparent, c, t);
        }
      }
      if next != null {
        RecolourUp(m0, m, top, c, t, node, parent);
        RecolourDefect(c, t);
      }
    }

    /** One round of the fix-up loop; it returns the node to go on from, or null when the repair is over. */
    method InsertRound(node: Node, parent: Node?, ghost c: Context, ghost t: Tree, ghost s: seq<Node>)
        returns (next: Node?)
      requires Snap() && Broken(m, top, c, t, node, parent, s)
      modifies this, m.Keys`left, m.Keys`right, m.Keys`parent, m.Keys`red
      ensures Snap() && m.Keys == old(m.Keys)
      ensures next == null ==> Grown(m, top, tree, s)
      ensures next != null ==>
                !c.Top? && !c.up.Top? && next in m && Broken(m, top, c.up.up, Recoloured(c, t), next, next.parent, s)
    {
      InsertEnds(m, if c.Top? then node else top, c, t, node, parent);
      if parent == null {
        tree := Paint(t, false);
        SetParentColor(node, null, false);
        top := node;
        next := null;
      } else if !parent.red {
        tree := Plug(c, t);
        next := null;
      } else {
        next := InsertClash(node, parent, c, t, s);
      }
    }

    method InsertFix(n: Node, ghost c0: Context, ghost t0: Tree, ghost s: seq<Node>)
      requires Snap() && n in m && Broken(m, top, c0, t0, n, n.parent, s)
      modifies this, m.Keys`left, m.Keys`right, m.Keys`parent, m.Keys`red
      ensures Snap() && m.Keys == old(m.Keys)
      ensures Grown(m, top, tree, s)
    {
      var node: Node, parent: Node? := n, n.parent;
      ghost var c, t := c0, t0;
      while true
        invariant Snap() && m.Keys == old(m.Keys)
        invariant Broken(m, top, c, t, node, parent, s)
        decreases c
      {
        var next := InsertRound(node, parent, c, t, s);
        if next == null {
          break;
        }
        c, t := c.up.up, Recoloured(c, t);
        node, parent := next, next.parent;
      }
    }

    method HangLeft(parent: Node, node: Node)
      requires Snap() && parent in m && node !in m && node.left == null && node.right == null && node.red
      modifies this`m, parent`left, node`parent
      ensures Snap() && m == WithLeft(old(m), parent, node)[node := Cell(null, null, parent, true)]
              && node.parent == parent
      ensures m.Keys == old(m.Keys) + {node}
    {
      SetLeft(parent, node);
      node.parent := parent;
      m := m[node := Cell(null, null, parent, true)];
    }

    method HangRight(parent: Node, node: Node)
      requires Snap() && parent in m && node !in m && node.left == null && node.right == null && node.red
      modifies this`m, parent`right, node`parent
      ensures Snap() && m == WithRight(old(m), parent, node)[node := Cell(null, null, parent, true)]
              && node.parent == parent
      ensures m.Keys == old(m.Keys) + {node}
    {
      SetRight(parent, node);
      node.parent := parent;
      m := m[node := Cell(null, null, parent, true)];
    }

    /** One comparison of the search loop; `nw'` is null once `node` hangs in its place. */
    method SeekRound(node: Node, cmp: (Node, Node) -> bool, nw: Node, ghost par: Node?, ghost c: Context, ghost t: Tree)
      returns (equal: bool, nw': Node?, ghost c': Context, ghost t': Tree)
      requires Snap() && node !in m && node.left == null && node.right == null && node.red
      requires Seeking(m, top, tree, cmp, node, c, t, nw, par)
      modifies this`m, node`parent, m.Keys`left, m.Keys`right
      ensures Snap() && t.T?
      ensures equal ==> m == old(m) && nw in Nodes(tree) && !cmp(node, nw) && !cmp(nw, node)
      ensures !equal && nw' != null ==>
                m == old(m) && Seeking(m, top, tree, cmp, node, c', t', nw', nw) && (t' == t.left || t' == t.right)
      ensures !equal && nw' == null ==> m.Keys == old(m.Keys) + {node} && Hung(m, top, tree, cmp, node, c', node.parent)
    {
      SeekStep(m, top, tree, cmp, node, c, t, nw, par);
      equal, nw', c', t' := false, nw, c, t;
      if cmp(node, nw) {
        c', t', nw' := DownLeft(c, t), t.left, nw.left;
        if nw' == null {
          SeekEnds(m, top, tree, cmp, node, c', nw);
          HangLeft(nw, node);
        }
      } else if cmp(nw, node) {
        c', t', nw' := DownRight(c, t), t.right, nw.right;
        if nw' == null {
          SeekEnds(m, top, tree, cmp, node, c', nw);
          HangRight(nw, node);
        }
      } else {
        equal := true;
      }
    }

    /** The search loop of `_rb_insert`: find `node`'s place and hang it there, or meet an equal node. */
    method Descend(node: Node, cmp: (Node, Node) -> bool) returns (r: int, ghost c: Context)
      requires Valid() && node !in m && OrderOn(cmp, Nodes(tree) + {node}) && Sorted(cmp, InOrder(tree))
      modifies this`m, node, m.Keys`left, m.Keys`right
      ensures Snap() && (r == 0 || r == -1)
      ensures r == -1 ==> m == old(m) && exists e <- Nodes(tree) :: !cmp(node, e) && !cmp(e, node)
      ensures r == 0 ==> m.Keys == old(m.Keys) + {node} && Hung(m, top, tree, cmp, node, c, node.parent)
    {
      var nw: Node?, parent: Node? := top, null;
      node.left, node.right, node.parent, node.red := null, null, null, true;
      c := Top;
      ghost var t := tree;
      SeekStarts(m, top, tree, cmp, node);
      if nw == null {
        SeekEnds(m, top, tree, cmp, node, c, null);
        m := m[node := Cell(null, null, null, true)];
      }
      while nw != null
        invariant Snap()
        invariant nw != null ==> m == old(m) && Seeking(m, top, tree, cmp, node, c, t, nw, parent)
        invariant nw != null ==> node.left == null && node.right == null && node.red
        invariant nw == null ==> m.Keys == old(m.Keys) + {node} && Hung(m, top, tree, cmp, node, c, node.parent)
        decreases nw != null, t
      {
        ghost var par := parent;
        var equal;
        parent := nw;
        equal, nw, c, t := SeekRound(node, cmp, parent, par, c, t);
        if equal {
          r := -1;
          return;
        }
      }
      r := 0;
    }

    /** `_rb_insert`. */
    method Insert(node: Node, cmp: (Node, Node) -> bool) returns (r: int)
      requires Valid() && node !in m && OrderOn(cmp, Nodes(tree) + {node}) && Sorted(cmp, InOrder(tree))
      modifies this, node, m.Keys`left, m.Keys`right, m.Keys`parent, m.Keys`red
      ensures Valid() && (r == 0 || r == -1)
      ensures r == -1 <==> exists e <- old(Nodes(tree)) :: !cmp(node, e) && !cmp(e, node)
      ensures r == -1 ==> tree == old(tree) && m == old(m) && top == old(top)
      ensures r == 0 ==> Sorted(cmp, InOrder(tree)) && InsertedInto(old(InOrder(tree)), node, InOrder(tree))
    {
      ghost var c;
      r, c := Descend(node, cmp);
      if r == 0 {
        HungUnequal(m, top, tree, cmp, node, c, node.parent);
        ghost var s, s' := InOrder(tree), Before(c) + [node] + After(c);
        InsertFix(node, c, T(Leaf, node, true, Leaf), s');
        SortedInsert(cmp, Before(c), node, After(c));
        InOrderNodes(tree);
        assert s' == s[..|Before(c)|] + [node] + s[|Before(c)|..];
      }
    }

    // Erasure: the fix-up loop.

    method SetParent(n: Node?, p: Node?)
      requires Snap()
      modifies this`m, Opt(n)`parent
      ensures Snap() && m == WithParentOnly(old(m), n, p) && top == old(top)
    {
      if n != null {
        n.parent := p;
        m := WithParentOnly(m, n, p);
      }
    }

    method LoosenStepL(parent: Node, sibling: Node, tmp1: Node?)
      requires Snap() && MayLift(m, parent, sibling, sibling.left, tmp1) && tmp1 == sibling.right
      modifies this`m, m.Keys`left, m.Keys`right, m.Keys`parent, m.Keys`red
      ensures Snap() && m == LoosenL(old(m), parent, sibling)
    {
      var tmp2 := sibling.left;
      SetRight(parent, tmp2);
      SetParent(tmp2, parent);
      SetLeft(sibling, parent);
      SetParentColor(tmp1, sibling, false);
    }

    method LiftStepL(parent: Node, sibling: Node, tmp1: Node?)
      requires Snap() && MayLift(m, parent, sibling, sibling.left, tmp1) && tmp1 == sibling.right
      modifies this`m, this`top, m.Keys`left, m.Keys`right, m.Keys`parent, m.Keys`red
      ensures Snap() && m == ChildChanged(LiftL(old(m), parent, sibling), parent, sibling, old(m[parent]).parent)
      ensures top == if old(m[parent]).parent == null then sibling else old(top)
    {
      LoosenLKeeps(m, parent, sibling);
      LoosenStepL(parent, sibling, tmp1);
      RotateSetParents(parent, sibling, false);
    }

    method LoosenStepR(parent: Node, sibling: Node, tmp1: Node?)
      requires Snap() && MayLift(m, parent, sibling, sibling.right, tmp1) && tmp1 == sibling.left
      modifies this`m, m.Keys`left, m.Keys`right, m.Keys`parent, m.Keys`red
      ensures Snap() && m == LoosenR(old(m), parent, sibling)
    {
      var tmp2 := sibling.right;
      SetLeft(parent, tmp2);
      SetParent(tmp2, parent);
      SetRight(sibling, parent);
      SetParentColor(tmp1, sibling, false);
    }

    method LiftStepR(parent: Node, sibling: Node, tmp1: Node?)
      requires Snap() && MayLift(m, parent, sibling, sibling.right, tmp1) && tmp1 == sibling.left
      modifies this`m, this`top, m.Keys`left, m.Keys`right, m.Keys`parent, m.Keys`red
      ensures Snap() && m == ChildChanged(LiftR(old(m), parent, sibling), parent, sibling, old(m[parent]).parent)
      ensures top == if old(m[parent]).parent == null then sibling else old(top)
    {
      LoosenRKeeps(m, parent, sibling);
      LoosenStepR(parent, sibling, tmp1);
      RotateSetParents(parent, sibling, false);
    }

    method PrepareStepL(parent: Node, sibling: Node, tmp2: Node)
      requires Snap() && {parent, sibling, tmp2} <= m.Keys && tmp2 == sibling.left
               && (tmp2.right != null ==> tmp2.right in m)
      modifies this`m, m.Keys`left, m.Keys`right, m.Keys`parent, m.Keys`red
      ensures Snap() && m == PrepareL(old(m), parent, sibling)
    {
      var tmp1 := tmp2.right;
      SetLeft(sibling, tmp1);
      SetParentColor(tmp1, sibling, false);
      SetRight(tmp2, sibling);
      SetRight(parent, tmp2);
    }

    method PrepareStepR(parent: Node, sibling: Node, tmp2: Node)
      requires Snap() && {parent, sibling, tmp2} <= m.Keys && tmp2 == sibling.right
               && (tmp2.left != null ==> tmp2.left in m)
      modifies this`m, m.Keys`left, m.Keys`right, m.Keys`parent, m.Keys`red
      ensures Snap() && m == PrepareR(old(m), parent, sibling)
    {
      var tmp1 := tmp2.left;
      SetRight(sibling, tmp1);
      SetParentColor(tmp1, sibling, false);
      SetLeft(tmp2, sibling);
      SetLeft(parent, tmp2);
    }

    /** Case 2 on either side; it returns whether the repair is over. */
    method EraseRedden(parent: Node, sibling: Node, ghost c: Context, ghost t: Tree, ghost node: Node?,
                       ghost s: seq<Node>) returns (done: bool)
      requires Snap() && Short(m, top, c, t, node, parent, s)
      requires !c.Top? && c.sibling.T? && c.sibling.node == sibling && !c.sibling.red
      requires !IsRed(c.sibling.left) && !IsRed(c.sibling.right)
      modifies this`m, this`tree, m.Keys`left, m.Keys`right, m.Keys`parent, m.Keys`red
      ensures Snap() && m.Keys == old(m.Keys) && (c.red ==> done)
      ensures done ==> Grown(m, top, tree, s)
      ensures !done ==> parent in m && Short(m, top, c.up, Fold(Reddened(c), t), parent, parent.parent, s)
    {
      hide Short, Grown, Fold, Plug, Paint;
      Case2Ends(m, top, c, t, node, parent, s);
      SetParentColor(sibling, parent, true);
      if parent.red {
        tree := Plug(c.up, Paint(Fold(Reddened(c), t), false));
        SetParentColor(parent, parent.parent, false);
        done := true;
      } else {
        tree := Plug(c.up, Fold(Reddened(c), t));
        done := parent.parent == null;
      }
    }

    method PrepareLiftStepL(parent: Node, sibling: Node, tmp2: Node)
      requires Snap() && MayPrepareLiftL(m, parent, sibling, tmp2)
      modifies this`m, this`top, m.Keys`left, m.Keys`right, m.Keys`parent, m.Keys`red
      ensures Snap() && m == ChildChanged(LiftL(PrepareL(old(m), parent, sibling), parent, tmp2), parent, tmp2,
              old(m[parent]).parent)
      ensures top == if old(m[parent]).parent == null then tmp2 else old(top)
    {
      PrepareStepL(parent, sibling, tmp2);
      LiftStepL(parent, tmp2, sibling);
    }

    method EraseLiftL(parent: Node, sibling: Node, tmp1: Node, ghost c: Context, ghost t: Tree, ghost node: Node?,
                      ghost s: seq<Node>)
      requires Snap() && Short(m, top, c, t, node, parent, s) && c.InL? && c.sibling.T? && c.sibling.node == sibling
               && !c.sibling.red
      requires IsRed(c.sibling.right) && tmp1 == sibling.right
      modifies this, m.Keys`left, m.Keys`right, m.Keys`parent, m.Keys`red
      ensures Snap() && m.Keys == old(m.Keys) && Grown(m, top, tree, s)
    {
      hide Short, Grown, ChildChanged, LiftL;
      Nephews(m, top, c, t, node, parent, s);
      tree := Case4LEnds(m, top, c, t, node, parent, s);
      LiftStepL(parent, sibling, tmp1);
    }

    method ErasePrepareLiftL(parent: Node, sibling: Node, tmp2: Node, ghost c: Context, ghost t: Tree,
                             ghost node: Node?, ghost s: seq<Node>)
      requires Snap() && Short(m, top, c, t, node, parent, s) && c.InL? && c.sibling.T? && c.sibling.node == sibling
               && !c.sibling.red
      requires IsRed(c.sibling.left) && !IsRed(c.sibling.right) && tmp2 == c.sibling.left.node
      modifies this, m.Keys`left, m.Keys`right, m.Keys`parent, m.Keys`red
      ensures Snap() && m.Keys == old(m.Keys) && Grown(m, top, tree, s)
    {
      hide Short, Grown, ChildChanged, LiftL, PrepareL;
      MayPrepareL(m, top, c, t, node, parent, s);
      tree := Case3LEnds(m, top, c, t, node, parent, s);
      PrepareLiftStepL(parent, sibling, tmp2);
    }

    /** A black sibling, the short subtree on the left. */
    method EraseBlackL(parent: Node, sibling: Node, ghost c: Context, ghost t: Tree, ghost node: Node?,
                       ghost s: seq<Node>) returns (done: bool)
      requires Snap() && Short(m, top, c, t, node, parent, s) && c.InL? && c.sibling.T? && c.sibling.node == sibling
               && !c.sibling.red
      modifies this, m.Keys`left, m.Keys`right, m.Keys`parent, m.Keys`red
      ensures Snap() && m.Keys == old(m.Keys) && (c.red ==> done)
      ensures done ==> Grown(m, top, tree, s)
      ensures !done ==> parent in m && Short(m, top, c.up, Fold(Reddened(c), t), parent, parent.parent, s)
    {
      Nephews(m, top, c, t, node, parent, s);
      var tmp1, tmp2 := sibling.right, sibling.left;
      if tmp1 != null && tmp1.red {
        EraseLiftL(parent, sibling, tmp1, c, t, node, s);
        done := true;
      } else if tmp2 != null && tmp2.red {
        ErasePrepareLiftL(parent, sibling, tmp2, c, t, node, s);
        done := true;
      } else {
        done := EraseRedden(parent, sibling, c, t, node, s);
      }
    }

    /** One round of the erase fix-up loop, the short subtree on the left. */
    method EraseRoundL(parent: Node, ghost c: Context, ghost t: Tree, ghost node: Node?, ghost s: seq<Node>)
        returns (done: bool)
      requires Snap() && Short(m, top, c, t, node, parent, s) && c.InL?
      modifies this, m.Keys`left, m.Keys`right, m.Keys`parent, m.Keys`red
      ensures Snap() && m.Keys == old(m.Keys)
      ensures done ==> Grown(m, top, tree, s)
      ensures !done ==> parent in m && Short(m, top, c.up, Fold(Reddened(c), t), parent, parent.parent, s)
    {
      LookAcross(m, top, c, t, node, parent, s);
      var sibling := parent.right;
      if sibling.red {
        Case1LShort(m, top, c, t, node, parent, s);
        Nephews(m, top, c, t, node, parent, s);
        Case1LBalance(c, t);
        var tmp1 := sibling.left;
        OuterStepR(sibling, parent, tmp1);
        sibling := tmp1;
        done := EraseBlackL(parent, sibling, Case1L(c), t, node, s);
      } else {
        done := EraseBlackL(parent, sibling, c, t, node, s);
      }
    }

    method PrepareLiftStepR(parent: Node, sibling: Node, tmp2: Node)
      requires Snap() && MayPrepareLiftR(m, parent, sibling, tmp2)
      modifies this`m, this`top, m.Keys`left, m.Keys`right, m.Keys`parent, m.Keys`red
      ensures Snap() && m == ChildChanged(LiftR(PrepareR(old(m), parent, sibling), parent, tmp2), parent, tmp2,
              old(m[parent]).parent)
      ensures top == if old(m[parent]).parent == null then tmp2 else old(top)
    {
      PrepareStepR(parent, sibling, tmp2);
      LiftStepR(parent, tmp2, sibling);
    }

    method EraseLiftR(parent: Node, sibling: Node, tmp1: Node, ghost c: Context, ghost t: Tree, ghost node: Node?,
                      ghost s: seq<Node>)
      requires Snap() && Short(m, top, c, t, node, parent, s) && c.InR? && c.sibling.T? && c.sibling.node == sibling
               && !c.sibling.red
      requires IsRed(c.sibling.left) && tmp1 == sibling.left
      modifies this, m.Keys`left, m.Keys`right, m.Keys`parent, m.Keys`red
      ensures Snap() && m.Keys == old(m.Keys) && Grown(m, top, tree, s)
    {
      hide Short, Grown, ChildChanged, LiftR;
      Nephews(m, top, c, t, node, parent, s);
      tree := Case4REnds(m, top, c, t, node, parent, s);
      LiftStepR(parent, sibling, tmp1);
    }

    method ErasePrepareLiftR(parent: Node, sibling: Node, tmp2: Node, ghost c: Context, ghost t: Tree,
                             ghost node: Node?, ghost s: seq<Node>)
      requires Snap() && Short(m, top, c, t, node, parent, s) && c.InR? && c.sibling.T? && c.sibling.node == sibling
               && !c.sibling.red
      requires IsRed(c.sibling.right) && !IsRed(c.sibling.left) && tmp2 == c.sibling.right.node
      modifies this, m.Keys`left, m.Keys`right, m.Keys`parent, m.Keys`red
      ensures Snap() && m.Keys == old(m.Keys) && Grown(m, top, tree, s)
    {
      hide Short, Grown, ChildChanged, LiftR, PrepareR;
      MayPrepareR(m, top, c, t, node, parent, s);
      tree := Case3REnds(m, top, c, t, node, parent, s);
      PrepareLiftStepR(parent, sibling, tmp2);
    }

    /** A black sibling, the short subtree on the right. */
    method EraseBlackR(parent: Node, sibling: Node, ghost c: Context, ghost t: Tree, ghost node: Node?,
                       ghost s: seq<Node>) returns (done: bool)
      requires Snap() && Short(m, top, c, t, node, parent, s) && c.InR? && c.sibling.T? && c.sibling.node == sibling
               && !c.sibling.red
      modifies this, m.Keys`left, m.Keys`right, m.Keys`parent, m.Keys`red
      ensures Snap() && m.Keys == old(m.Keys) && (c.red ==> done)
      ensures done ==> Grown(m, top, tree, s)
      ensures !done ==> parent in m && Short(m, top, c.up, Fold(Reddened(c), t), parent, parent.parent, s)
    {
      Nephews(m, top, c, t, node, parent, s);
      var tmp1, tmp2 := sibling.left, sibling.right;
      if tmp1 != null && tmp1.red {
        EraseLiftR(parent, sibling, tmp1, c, t, node, s);
        done := true;
      } else if tmp2 != null && tmp2.red {
        ErasePrepareLiftR(parent, sibling, tmp2, c, t, node, s);
        done := true;
      } else {
        done := EraseRedden(parent, sibling, c, t, node, s);
      }
    }

    /** One round of the erase fix-up loop, the short subtree on the right. */
    method EraseRoundR(parent: Node, ghost c: Context, ghost t: Tree, ghost node: Node?, ghost s: seq<Node>)
        returns (done: bool)
      requires Snap() && Short(m, top, c, t, node, parent, s) && c.InR?
      modifies this, m.Keys`left, m.Keys`right, m.Keys`parent, m.Keys`red
      ensures Snap() && m.Keys == old(m.Keys)
      ensures done ==> Grown(m, top, tree, s)
      ensures !done ==> parent in m && Short(m, top, c.up, Fold(Reddened(c), t), parent, parent.parent, s)
    {
      LookAcross(m, top, c, t, node, parent, s);
      var sibling := parent.left;
      if sibling.red {
        Case1RShort(m, top, c, t, node, parent, s);
        Nephews(m, top, c, t, node, parent, s);
        Case1RBalance(c, t);
        var tmp1 := sibling.right;
        OuterStepL(sibling, parent, tmp1);
        sibling := tmp1;
        done := EraseBlackR(parent, sibling, Case1R(c), t, node, s);
      } else {
        done := EraseBlackR(parent, sibling, c, t, node, s);
      }
    }

    method EraseFix(p: Node, ghost c0: Context, ghost s: seq<Node>)
      requires Snap() && Short(m, top, c0, Leaf, null, p, s)
      modifies this, m.Keys`left, m.Keys`right, m.Keys`parent, m.Keys`red
      ensures Snap() && m.Keys == old(m.Keys)
      ensures Grown(m, top, tree, s)
    {
      var node: Node?, parent: Node := null, p;
      ghost var c, t := c0, Leaf;
      while true
        invariant Snap() && m.Keys == old(m.Keys)
        invariant Short(m, top, c, t, node, parent, s)
        decreases c
      {
        LookAcross(m, top, c, t, node, parent, s);
        var done;
        if node != parent.right {
          done := EraseRoundL(parent, c, t, node, s);
        } else {
          done := EraseRoundR(parent, c, t, node, s);
        }
        if done {
          break;
        }
        ShortParent(m, top, c.up, Fold(Reddened(c), t), parent, parent.parent, s);
        c, t := c.up, Fold(Reddened(c), t);
        node, parent := parent, parent.parent;
      }
    }

    // Erasure: taking the node out.

    /** The branches for a node without a left child, or without a right one. */
    method UnlinkOneChild(node: Node, child: Node?, ghost c: Context, ghost g: Tree) returns (rebalance: Node?)
      requires Snap() && At(m, top, c, g, node, node.parent) && IsRedBlack(Plug(c, g)) && g.T? && g.node == node
               && node in m
      requires (g.left.Leaf? && child == node.right) || (g.left.T? && g.right.Leaf? && child == node.left)
      modifies this, m.Keys`left, m.Keys`right, m.Keys`parent, m.Keys`red
      ensures Snap() && m.Keys == old(m.Keys)
      ensures TakenOut(m, top, tree, c, rebalance, Rest(c, g.left, g.right))
    {
      hide At, Plug, IsRedBlack, TakenOut, Rest, ChildChanged;
      ghost var k := if g.left.Leaf? then g.right else g.left;
      tree := OneChildEnds(m, top, c, g, k, child, node, node.parent);
      var parent, red := node.parent, node.red;
      ChangeCommutes(m, child, parent, red, node, child, parent);
      ChangeChild(node, child, parent);
      if child != null {
        SetParentColor(child, parent, red);
        rebalance := null;
      } else {
        rebalance := if !red then parent else null;
      }
    }

    /** The in-order successor below `child`, and the node it hangs from (itself, when it is `child`). */
    method FindSuccessor(child: Node, ghost par: Node?, ghost r: Tree) returns (succ: Node, parent: Node)
      requires Snap() && Links(m, r, child, par) && r.T?
      ensures succ == MinTree(r).node && parent == MinParent(r, succ)
    {
      succ, parent := child, child;
      var tmp := child.left;
      ghost var t, up := r, par;
      LinksDomain(m, r.left, tmp, child);
      while tmp != null
        invariant t.T? && Links(m, t, succ, up) && tmp == m[succ].left && (tmp == null <==> t.left.Leaf?)
        invariant MinTree(t) == MinTree(r)
        invariant t == r ==> parent == succ
        invariant t != r ==> MinParent(r, MinTree(r).node) == MinParent(t, parent)
        decreases t
      {
        parent, succ := succ, tmp;
        up, t := parent, t.left;
        tmp := tmp.left;
        LinksDomain(m, t.left, tmp, succ);
      }
    }

    method DetachSuccessor(node: Node, child: Node, succ: Node, parent: Node)
      requires Snap() && MayMove(m, node, child, succ, parent)
      modifies this`m, m.Keys`left, m.Keys`right, m.Keys`parent, m.Keys`red
      ensures Snap() && m == Detached(old(m), node, succ, parent)
    {
      if child != succ {
        var child2 := succ.right;
        SetLeft(parent, child2);
        SetRight(succ, child);
        SetParent(child, succ);
      }
      var tmp := node.left;
      SetLeft(succ, tmp);
      SetParent(tmp, succ);
    }

    method TakeOver(node: Node, succ: Node, child2: Node?, parent: Node, gparent: Node?, red: bool)
      requires Snap() && {succ, parent} <= m.Keys && (child2 != null ==> child2 in m)
               && (gparent != null ==> gparent in m)
      modifies this`m, this`top, m.Keys`left, m.Keys`right, m.Keys`parent, m.Keys`red
      ensures Snap() && m == ChildChanged(WithParent(WithParent(old(m), succ, gparent, red), child2, parent, false),
              node, succ, gparent)
      ensures top == if gparent == null then succ else old(top)
    {
      hide ChildChanged, WithParent;
      ghost var m2 := m;
      ChangeChild(node, succ, gparent);
      ChangeCommutes(m2, succ, gparent, red, node, succ, gparent);
      SetParentColor(succ, gparent, red);
      ChangeCommutes(WithParent(m2, succ, gparent, red), child2, parent, false, node, succ, gparent);
      SetParentColor(child2, parent, false);
    }

    method MoveSuccessor(node: Node, child: Node, succ: Node, parent: Node)
      requires Snap() && MayMove(m, node, child, succ, parent)
      modifies this`m, this`top, m.Keys`left, m.Keys`right, m.Keys`parent, m.Keys`red
      ensures Snap() && m == ChildChanged(Unlinked(old(m), node, succ, parent), node, succ, old(m[node]).parent)
      ensures top == if old(m[node]).parent == null then succ else old(top)
    {
      hide Detached, ChildChanged, WithParent;
      DetachedKeeps(m, node, child, succ, parent);
      var child2 := succ.right;
      DetachSuccessor(node, child, succ, parent);
      TakeOver(node, succ, child2, parent, node.parent, node.red);
    }

    method UnlinkTwoChildren(node: Node, child: Node, ghost c: Context, ghost g: Tree)
        returns (rebalance: Node?, ghost d: Context)
      requires Snap() && At(m, top, c, g, node, node.parent) && IsRedBlack(Plug(c, g)) && g.T? && g.node == node
               && node in m
      requires g.left.T? && g.right.T? && child == node.right
      modifies this, m.Keys`left, m.Keys`right, m.Keys`parent, m.Keys`red
      ensures Snap() && m.Keys == old(m.Keys)
      ensures TakenOut(m, top, tree, d, rebalance, Rest(c, g.left, g.right))
    {
      hide At, TakenOut, Rest, Unlinked, ChildChanged, Links, IsRedBlack, Plug;
      ghost var t';
      MaySucceed(m, top, c, g.left, node, g.red, g.right, node.parent);
      t', d := TwoChildrenEnds(m, top, c, g.left, node, g.red, g.right, node.parent);
      tree := t';
      var succ, parent := FindSuccessor(child, node, g.right);
      var child2, red2 := succ.right, succ.red;
      MoveSuccessor(node, child, succ, parent);
      rebalance := if child2 == null && !red2 then parent else null;
    }

    /** `__rb_erase`. */
    method Unlink(node: Node) returns (rebalance: Node?, ghost d: Context, ghost s: seq<Node>)
      requires Valid() && node in m
      modifies this, m.Keys`left, m.Keys`right, m.Keys`parent, m.Keys`red
      ensures Snap() && m.Keys == old(m.Keys)
      ensures TakenOut(m, top, tree, d, rebalance, s)
      ensures InsertedInto(s, node, old(InOrder(tree))) && Elements(s) == old(Nodes(tree)) - {node}
    {
      ghost var c, g := Focus(Top, tree, node);
      ghost var p, par := Refocus(m, top, c, g);
      RestWalk(c, g.left, node, g.red, g.right);
      PlugWalk(c, g);
      InOrderNodes(tree);
      s := Rest(c, g.left, g.right);
      LinksDomain(m, g.left, node.left, node);
      LinksDomain(m, g.right, node.right, node);
      var child, tmp := node.right, node.left;
      d := c;
      if tmp == null {
        rebalance := UnlinkOneChild(node, child, c, g);
      } else if child == null {
        rebalance := UnlinkOneChild(node, tmp, c, g);
      } else {
        rebalance, d := UnlinkTwoChildren(node, child, c, g);
      }
    }

    /** `_rb_erase`. */
    method Erase(node: Node)
      requires Valid() && node in m
      modifies this, m.Keys`left, m.Keys`right, m.Keys`parent, m.Keys`red
      ensures Valid() && m.Keys == old(m.Keys) - {node}
      ensures InsertedInto(InOrder(tree), node, old(InOrder(tree)))
    {
      ghost var d, s;
      var rebalance;
      rebalance, d, s := Unlink(node);
      hide Short, Grown, Valid, InOrder, Nodes;
      if rebalance != null {
        EraseFix(rebalance, d, s);
      }
      Forget(node, s);
    }

    /** An erased node is no longer on record. */
    ghost method Forget(node: Node, s: seq<Node>)
      requires Snap() && Grown(m, top, tree, s) && Elements(s) == m.Keys - {node}
      modifies this`m
      ensures Valid() && m.Keys == old(m.Keys) - {node} && InOrder(tree) == s
    {
      DropNode(m, top, tree, s, node);
      m := m - {node};
    }

    // Read-only loops.

    /** `_rb_lookup`. */
    method Lookup(node: Node, cmp: (Node, Node) -> bool) returns (r: Node?)
      requires Valid() && OrderOn(cmp, Nodes(tree) + {node}) && Sorted(cmp, InOrder(tree))
      ensures r != null ==> r in Nodes(tree) && !cmp(node, r) && !cmp(r, node)
      ensures r == null ==> forall e <- Nodes(tree) :: cmp(node, e) || cmp(e, node)
    {
      r := top;
      ghost var c, t, par: Node? := Top, tree, null;
      SeekStarts(m, top, tree, cmp, node);
      while r != null
        invariant Seeking(m, top, tree, cmp, node, c, t, r, par)
        decreases t
      {
        SeekStep(m, top, tree, cmp, node, c, t, r, par);
        if cmp(node, r) {
          c, t, par, r := DownLeft(c, t), t.left, r, r.left;
        } else if cmp(r, node) {
          c, t, par, r := DownRight(c, t), t.right, r, r.right;
        } else {
          return;
        }
      }
      InOrderNodes(tree);
    }

    /** `_rb_first`. */
    method First() returns (n: Node?)
      requires Valid()
      ensures n == if InOrder(tree) == [] then null else InOrder(tree)[0]
    {
      n := top;
      if n == null {
        return;
      }
      ghost var t, par: Node? := tree, null;
      while n.left != null
        invariant t.T? && n == t.node && n in m && Links(m, t, n, par) && InOrder(t)[0] == InOrder(tree)[0]
        decreases t
      {
        LinksDomain(m, t.left, n.left, n);
        par, t, n := n, t.left, n.left;
      }
    }
  }
}
