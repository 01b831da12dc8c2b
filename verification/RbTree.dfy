/** The rebalancing algorithms of common/rbtree.c, on heap nodes with parent pointers. */
module RbTree {
  import opened RbShape
  import opened RbLinks
  import opened RbFixups

  class Root<K, V> {
    var node: Node?<K, V>
    /** The nodes whose fields the methods of this root may change. */
    ghost var all: set<Node<K, V>>

    /** The tree the pointers describe, while no operation is under way. */
    ghost var tree: Tree<Node<K, V>>

    ghost predicate Valid()
      reads this, all
    {
      Holds(Top, tree) && all == Nodes(tree) && RedBlack(tree)
    }

    /** CCEPH_RB_ROOT */
    constructor ()
      ensures Valid() && tree == Leaf
    {
      node, all, tree := null, {}, Leaf;
      new;
      assert Rb(tree, 0);
    }

    ghost predicate Holds(p: Path<Node<K, V>>, t: Tree<Node<K, V>>)
      reads this, all
    {
      At(View(all), node, p, t)
    }

    /** One, two or three of the stores cceph_rb_set_red, cceph_rb_set_black, cceph_rb_set_color. */
    method Paint1(x: Node<K, V>, cx: bool)
      requires x in all
      modifies x`red
      ensures Painted(old(View(all)), View(all), map[x := cx])
    {
      x.red := cx;
    }

    method Paint2(x: Node<K, V>, cx: bool, y: Node<K, V>, cy: bool)
      requires x in all && y in all && x != y
      modifies x`red, y`red
      ensures Painted(old(View(all)), View(all), map[x := cx, y := cy])
    {
      x.red := cx;
      y.red := cy;
    }

    method Paint3(x: Node<K, V>, cx: bool, y: Node<K, V>, cy: bool, z: Node<K, V>, cz: bool)
      requires x in all && y in all && z in all && x != y && y != z && x != z
      modifies x`red, y`red, z`red
      ensures Painted(old(View(all)), View(all), map[x := cx, y := cy, z := cz])
    {
      x.red := cx;
      y.red := cy;
      z.red := cz;
    }

    /** __cceph_rb_rotate_left */
    method RotateLeft(n: Node<K, V>, ghost p: Path<Node<K, V>>, ghost s: Spin<Node<K, V>>)
      requires Holds(p, s.Whole()) && s.n == n && s.onLeft
      modifies this, all
      ensures all == old(all) && Holds(p, s.Turned())
    {
      ghost var m := View(all);
      SpinCells(m, node, p, s);
      LinkLeft(n, p);
      AtRotate(m, View(all), old(node), node, p, s);
    }

    method LinkLeft(n: Node<K, V>, ghost p: Path<Node<K, V>>)
      requires n.right != null && n in all && n.right in all
      requires n.right.left != null ==> n.right.left in all && n.right.left != n && n.right.left != n.right
      requires n.parent == UpNode(p, null) && n != n.right
      requires n.parent != null ==> n.parent in all && n.parent != n && n.parent != n.right && n.parent != n.right.left
      requires n.parent != null ==> (if p.wentLeft then n.parent.left == n else n.parent.left != n && n.parent.right == n)
      modifies this, all
      ensures all == old(all)
      ensures var m, m', r := old(View(all)), View(all), old(n.right);
        && m'[n] == m[n].(right := m[r].left, parent := r)
        && m'[r] == m[r].(left := n, parent := m[n].parent)
        && (m[r].left != null ==> m'[m[r].left] == m[m[r].left].(parent := n))
        && Relinked(m, m', old(node), node, p, r)
        && SameOn(m, m', all - {n, r} - (if m[r].left != null then {m[r].left} else {}) - (if p.Step? then {p.node} else {}))
    {
      var right := n.right;
      var parent := n.parent;
      n.right := right.left;
      if n.right != null {
        right.left.parent := n;
      }
      right.left := n;
      right.parent := parent;
      if parent != null {
        if n == parent.left {
          parent.left := right;
        } else {
          parent.right := right;
        }
      } else {
        node := right;
      }
      n.parent := right;
    }

    /** __cceph_rb_rotate_right */
    method RotateRight(n: Node<K, V>, ghost p: Path<Node<K, V>>, ghost s: Spin<Node<K, V>>)
      requires Holds(p, s.Whole()) && s.n == n && !s.onLeft
      modifies this, all
      ensures all == old(all) && Holds(p, s.Turned())
    {
      ghost var m := View(all);
      SpinCells(m, node, p, s);
      LinkRight(n, p);
      AtRotate(m, View(all), old(node), node, p, s);
    }

    method LinkRight(n: Node<K, V>, ghost p: Path<Node<K, V>>)
      requires n.left != null && n in all && n.left in all
      requires n.left.right != null ==> n.left.right in all && n.left.right != n && n.left.right != n.left
      requires n.parent == UpNode(p, null) && n != n.left
      requires n.parent != null ==> n.parent in all && n.parent != n && n.parent != n.left && n.parent != n.left.right
      requires n.parent != null ==> (if p.wentLeft then n.parent.right != n && n.parent.left == n else n.parent.right == n)
      modifies this, all
      ensures all == old(all)
      ensures var m, m', r := old(View(all)), View(all), old(n.left);
        && m'[n] == m[n].(left := m[r].right, parent := r)
        && m'[r] == m[r].(right := n, parent := m[n].parent)
        && (m[r].right != null ==> m'[m[r].right] == m[m[r].right].(parent := n))
        && Relinked(m, m', old(node), node, p, r)
        && SameOn(m, m', all - {n, r} - (if m[r].right != null then {m[r].right} else {}) - (if p.Step? then {p.node} else {}))
    {
      var left := n.left;
      var parent := n.parent;
      n.left := left.right;
      if n.left != null {
        left.right.parent := n;
      }
      left.right := n;
      left.parent := parent;
      if parent != null {
        if n == parent.right {
          parent.right := left;
        } else {
          parent.left := left;
        }
      } else {
        node := left;
      }
      n.parent := left;
    }
  
    /** Red uncle: three colour bits change and the fault moves up to the grandparent. */
    method InsertRecolor(uncle: Node<K, V>, parent: Node<K, V>, gparent: Node<K, V>,
                         ghost p: Path<Node<K, V>>, ghost t: Tree<Node<K, V>>, ghost h: nat)
      requires Holds(p, t) && RedFault(p, t, h) && p.Step? && p.red && p.up.Step? && !IsBlack(p.up.sibling)
      requires uncle == p.up.sibling.node && parent == p.node && gparent == p.up.node
      modifies all
      ensures Holds(p.up.up, Recolored(p, t)) && RedFault(p.up.up, Recolored(p, t), h + 1)
      ensures SameNodes(Plug(p, t), Plug(p.up.up, Recolored(p, t))) && Depth(p.up.up) < Depth(p)
    {
      ghost var m := View(all);
      PathCells(m, node, p, t);
      Paint3(uncle, false, parent, false, gparent, true);
      RecolorAt(m, View(all), node, p, t, h);
    }

    /** The grandchild on the inner side: one rotation makes it the outer side. */
    method InsertSwingLeft(parent: Node<K, V>, ghost p: Path<Node<K, V>>, ghost t: Tree<Node<K, V>>, ghost h: nat)
      requires Holds(p, t) && RedFault(p, t, h) && p.Step? && p.red && p.up.Step?
      requires parent == p.node && p.up.wentLeft && !p.wentLeft
      modifies this, all
      ensures all == old(all)
      ensures var s := SwingSpin(p, t);
        && Holds(SwungPath(p, t), s.TurnedLow()) && RedFault(SwungPath(p, t), s.TurnedLow(), h)
        && SameNodes(Plug(p, t), Plug(SwungPath(p, t), s.TurnedLow()))
        && Depth(SwungPath(p, t)) == Depth(p)
    {
      ghost var s := SwingSpin(p, t);
      SwingFault(p, t, h);
      s.TurnedSame(p.up);
      Move(View(all), node, p, t, p.up, s.Whole());
      RotateLeft(parent, p.up, s);
      Move(View(all), node, p.up, s.Turned(), SwungPath(p, t), s.TurnedLow());
    }

    /** The grandchild on the outer side: repaint, rotate at the grandparent, done. */
    method InsertLiftRight(parent: Node<K, V>, gparent: Node<K, V>, ghost p: Path<Node<K, V>>, ghost t: Tree<Node<K, V>>, ghost h: nat)
      requires Holds(p, t) && RedFault(p, t, h) && p.Step? && p.red && p.up.Step? && IsBlack(p.up.sibling)
      requires parent == p.node && gparent == p.up.node && p.up.wentLeft && p.wentLeft
      modifies this, all
      ensures all == old(all)
      ensures Holds(LiftedPath(p, t), t) && RedFault(LiftedPath(p, t), t, h)
      ensures SameNodes(Plug(p, t), Plug(LiftedPath(p, t), t)) && Depth(LiftedPath(p, t)) < Depth(p)
    {
      ghost var m := View(all);
      PathCells(m, node, p, t);
      Paint2(parent, false, gparent, true);
      LiftAt(m, View(all), node, p, t, h);
      RotateRight(gparent, p.up.up, LiftSpin(p, t));
      LiftSpin(p, t).TurnedSame(p.up.up);
      Move(View(all), node, p.up.up, LiftSpin(p, t).Turned(), LiftedPath(p, t), t);
    }

    /** The grandchild on the inner side: one rotation makes it the outer side. */
    method InsertSwingRight(parent: Node<K, V>, ghost p: Path<Node<K, V>>, ghost t: Tree<Node<K, V>>, ghost h: nat)
      requires Holds(p, t) && RedFault(p, t, h) && p.Step? && p.red && p.up.Step?
      requires parent == p.node && !p.up.wentLeft && p.wentLeft
      modifies this, all
      ensures all == old(all)
      ensures var s := SwingSpin(p, t);
        && Holds(SwungPath(p, t), s.TurnedLow()) && RedFault(SwungPath(p, t), s.TurnedLow(), h)
        && SameNodes(Plug(p, t), Plug(SwungPath(p, t), s.TurnedLow()))
        && Depth(SwungPath(p, t)) == Depth(p)
    {
      ghost var s := SwingSpin(p, t);
      SwingFault(p, t, h);
      s.TurnedSame(p.up);
      Move(View(all), node, p, t, p.up, s.Whole());
      RotateRight(parent, p.up, s);
      Move(View(all), node, p.up, s.Turned(), SwungPath(p, t), s.TurnedLow());
    }

    /** The grandchild on the outer side: repaint, rotate at the grandparent, done. */
    method InsertLiftLeft(parent: Node<K, V>, gparent: Node<K, V>, ghost p: Path<Node<K, V>>, ghost t: Tree<Node<K, V>>, ghost h: nat)
      requires Holds(p, t) && RedFault(p, t, h) && p.Step? && p.red && p.up.Step? && IsBlack(p.up.sibling)
      requires parent == p.node && gparent == p.up.node && !p.up.wentLeft && !p.wentLeft
      modifies this, all
      ensures all == old(all)
      ensures Holds(LiftedPath(p, t), t) && RedFault(LiftedPath(p, t), t, h)
      ensures SameNodes(Plug(p, t), Plug(LiftedPath(p, t), t)) && Depth(LiftedPath(p, t)) < Depth(p)
    {
      ghost var m := View(all);
      PathCells(m, node, p, t);
      Paint2(parent, false, gparent, true);
      LiftAt(m, View(all), node, p, t, h);
      RotateLeft(gparent, p.up.up, LiftSpin(p, t));
      LiftSpin(p, t).TurnedSame(p.up.up);
      Move(View(all), node, p.up.up, LiftSpin(p, t).Turned(), LiftedPath(p, t), t);
    }

    /** One turn of the loop, the parent being a left child. */
    method InsertStepLeft(n0: Node<K, V>, parent0: Node<K, V>, gparent: Node<K, V>,
                          ghost p0: Path<Node<K, V>>, ghost t0: Tree<Node<K, V>>, ghost h0: nat)
      returns (n: Node<K, V>, ghost p: Path<Node<K, V>>, ghost t: Tree<Node<K, V>>, ghost h: nat)
      requires Holds(p0, t0) && RedFault(p0, t0, h0) && p0.Step? && p0.red && p0.up.Step?
      requires n0 == t0.node && parent0 == p0.node && gparent == p0.up.node && p0.up.wentLeft
      modifies this, all
      ensures all == old(all) && Holds(p, t) && RedFault(p, t, h) && t.node == n
      ensures SameNodes(Plug(p0, t0), Plug(p, t)) && Depth(p) < Depth(p0)
    {
      n, p, t, h := n0, p0, t0, h0;
      var parent := parent0;
      PathCells(View(all), node, p, t);
      hide At, Ctx, Rb, Plug, Depth, Nodes, Inorder;
      var uncle := gparent.right;
      if uncle != null && uncle.red {
        InsertRecolor(uncle, parent, gparent, p, t, h);
        n := gparent;
        p, t, h := p.up.up, Recolored(p, t), h + 1;
        return;
      }
      if parent.right == n {
        InsertSwingLeft(parent, p, t, h);
        parent, n := n, parent;
        p, t := SwungPath(p, t), SwingSpin(p, t).TurnedLow();
      }
      InsertLiftRight(parent, gparent, p, t, h);
      p := LiftedPath(p, t);
    }

    /** One turn of the loop, the parent being a right child. */
    method InsertStepRight(n0: Node<K, V>, parent0: Node<K, V>, gparent: Node<K, V>,
                          ghost p0: Path<Node<K, V>>, ghost t0: Tree<Node<K, V>>, ghost h0: nat)
      returns (n: Node<K, V>, ghost p: Path<Node<K, V>>, ghost t: Tree<Node<K, V>>, ghost h: nat)
      requires Holds(p0, t0) && RedFault(p0, t0, h0) && p0.Step? && p0.red && p0.up.Step?
      requires n0 == t0.node && parent0 == p0.node && gparent == p0.up.node && !p0.up.wentLeft
      modifies this, all
      ensures all == old(all) && Holds(p, t) && RedFault(p, t, h) && t.node == n
      ensures SameNodes(Plug(p0, t0), Plug(p, t)) && Depth(p) < Depth(p0)
    {
      n, p, t, h := n0, p0, t0, h0;
      var parent := parent0;
      PathCells(View(all), node, p, t);
      hide At, Ctx, Rb, Plug, Depth, Nodes, Inorder;
      var uncle := gparent.left;
      if uncle != null && uncle.red {
        InsertRecolor(uncle, parent, gparent, p, t, h);
        n := gparent;
        p, t, h := p.up.up, Recolored(p, t), h + 1;
        return;
      }
      if parent.left == n {
        InsertSwingRight(parent, p, t, h);
        parent, n := n, parent;
        p, t := SwungPath(p, t), SwingSpin(p, t).TurnedLow();
      }
      InsertLiftLeft(parent, gparent, p, t, h);
      p := LiftedPath(p, t);
    }

    /** cceph_rb_insert_color: the linked red node `n0` is the only thing out of order. */
    method InsertColor(n0: Node<K, V>, ghost p0: Path<Node<K, V>>, ghost t0: Tree<Node<K, V>>, ghost h0: nat)
      returns (ghost w: Tree<Node<K, V>>)
      requires Holds(p0, t0) && RedFault(p0, t0, h0) && t0.node == n0
      modifies this, all
      ensures all == old(all) && Holds(Top, w) && RedBlack(w) && SameNodes(Plug(p0, t0), w)
    {
      hide At, Ctx, Rb, RedBlack, Plug, Depth, Nodes, Inorder;
      var n := n0;
      ghost var p, t, h := p0, t0, h0;
      PathCells(View(all), node, p, t);
      var parent := n.parent;
      while parent != null && parent.red
        invariant all == old(all) && Holds(p, t) && RedFault(p, t, h) && t.node == n
        invariant parent == UpNode(p, null) && SameNodes(Plug(p0, t0), Plug(p, t))
        invariant p.Step? ==> p.node in all && p.node.red == p.red
        decreases Depth(p)
      {
        FaultHasGrandparent(p, t, h);
        PathCells(View(all), node, p, t);
        var gparent := parent.parent;
        if parent == gparent.left {
          n, p, t, h := InsertStepLeft(n, parent, gparent, p, t, h);
        } else {
          n, p, t, h := InsertStepRight(n, parent, gparent, p, t, h);
        }
        PathCells(View(all), node, p, t);
        parent := n.parent;
      }
      FaultGone(p, t, h);
      Zip(View(all), node, p, t);
      w := Blacken(Plug(p, t));
      BlackenRoot(Plug(p, t));
    }

    /** cceph_rb_set_black(root->rb_node) */
    method BlackenRoot(ghost w: Tree<Node<K, V>>)
      requires Holds(Top, w) && w.Fork?
      modifies all
      ensures Holds(Top, Blacken(w)) && SameNodes(w, Blacken(w))
    {
      ghost var m := View(all);
      assert w.node in m;
      node.red := false;
      ghost var f := map[w.node := false];
      PaintNodes(w.left, f);
      PaintNodes(w.right, f);
      assert Paint(w, f) == Blacken(w);
      AtPaint(m, View(all), node, Top, w, f);
    }
  }

  lemma Move<K, V>(m: Snapshot<K, V>, rootNode: Node?<K, V>, p: Path<Node<K, V>>, t: Tree<Node<K, V>>, p': Path<Node<K, V>>, t': Tree<Node<K, V>>)
    requires At(m, rootNode, p, t) && Plug(p, t) == Plug(p', t')
    ensures At(m, rootNode, p', t')
  {
    Zip(m, rootNode, p, t);
    Zip(m, rootNode, p', t');
  }

  lemma RecolorAt<K, V>(m: Snapshot<K, V>, m': Snapshot<K, V>, rootNode: Node?<K, V>, p: Path<Node<K, V>>, t: Tree<Node<K, V>>, h: nat)
    requires At(m, rootNode, p, t)
    requires RedFault(p, t, h) && p.Step? && p.red && p.up.Step? && !IsBlack(p.up.sibling)
    requires Painted(m, m', map[p.up.sibling.node := false, p.node := false, p.up.node := true])
    ensures At(m', rootNode, p.up.up, Recolored(p, t)) && RedFault(p.up.up, Recolored(p, t), h + 1)
    ensures SameNodes(Plug(p, t), Plug(p.up.up, Recolored(p, t)))
  {
    var f := map[p.up.sibling.node := false, p.node := false, p.up.node := true];
    RecoloredFault(p, t, h);
    RecoloredPaint(p, t);
    PaintPlug(p, t, f);
    AtPaint(m, m', rootNode, p, t, f);
    Move(m', rootNode, PaintPath(p, f), Paint(t, f), p.up.up, Recolored(p, t));
  }

  lemma LiftAt<K, V>(m: Snapshot<K, V>, m': Snapshot<K, V>, rootNode: Node?<K, V>, p: Path<Node<K, V>>, t: Tree<Node<K, V>>, h: nat)
    requires At(m, rootNode, p, t)
    requires RedFault(p, t, h) && p.Step? && p.red && p.up.Step? && p.wentLeft == p.up.wentLeft && IsBlack(p.up.sibling)
    requires Painted(m, m', map[p.node := false, p.up.node := true])
    ensures At(m', rootNode, p.up.up, LiftSpin(p, t).Whole())
    ensures RedFault(LiftedPath(p, t), t, h) && Plug(LiftedPath(p, t), t) == Plug(p.up.up, LiftSpin(p, t).Turned())
    ensures SameNodes(Plug(p, t), Plug(p.up.up, LiftSpin(p, t).Whole()))
  {
    var f := map[p.node := false, p.up.node := true];
    LiftFault(p, t, h);
    LiftPaint(p, t);
    PaintPlug(p, t, f);
    AtPaint(m, m', rootNode, p, t, f);
    Move(m', rootNode, PaintPath(p, f), Paint(t, f), p.up.up, LiftSpin(p, t).Whole());
  }

  /** What a snapshot says about the two nodes above the hole and their other children. */
  lemma PathCells<K, V>(m: Snapshot<K, V>, rootNode: Node?<K, V>, p: Path<Node<K, V>>, t: Tree<Node<K, V>>)
    requires At(m, rootNode, p, t)
    ensures t.Fork? ==> t.node in m && m[t.node] == Cell(RootOf(t.left), RootOf(t.right), UpNode(p, null), t.red)
    ensures p.Step? ==> p.node in m && m[p.node] == JoinCell(p.wentLeft, RootOf(t), RootOf(p.sibling), UpNode(p.up, null), p.red)
    ensures p.Step? && p.sibling.Fork? ==>
      && p.sibling.node in m && p.sibling.node != RootOf(t)
      && m[p.sibling.node] == Cell(RootOf(p.sibling.left), RootOf(p.sibling.right), p.node, p.sibling.red)
    ensures p.Step? && t.Fork? ==> p.node != t.node
    ensures p.Step? && p.up.Step? ==>
      && p.up.node in m && m[p.up.node] == JoinCell(p.up.wentLeft, p.node, RootOf(p.up.sibling), UpNode(p.up.up, null), p.up.red)
      && p.up.node != p.node && p.up.node != RootOf(t) && p.node != RootOf(p.up.sibling)
    ensures p.Step? && p.up.Step? && p.up.sibling.Fork? ==>
      && p.up.sibling.node in m
      && m[p.up.sibling.node] == Cell(RootOf(p.up.sibling.left), RootOf(p.up.sibling.right), p.up.node, p.up.sibling.red)
  {
    if p.Step? {
      assert Linked(m, p.sibling, p.node);
      assert p.sibling.Fork? ==> p.sibling.node in Nodes(p.sibling);
      if p.up.Step? {
        assert Chain(m, p.up, p.node, rootNode, null);
        assert Linked(m, p.up.sibling, p.up.node);
        assert p.up.node in PathNodes(p.up);
        assert p.up.sibling.Fork? ==> p.up.sibling.node in PathNodes(p.up);
      }
    }
  }

  lemma SpinCells<K, V>(m: Snapshot<K, V>, rootNode: Node?<K, V>, p: Path<Node<K, V>>, s: Spin<Node<K, V>>)
    requires At(m, rootNode, p, s.Whole())
    ensures s.n in m && m[s.n] == JoinCell(s.onLeft, RootOf(s.outer), s.r, UpNode(p, null), s.nRed)
    ensures s.r in m && m[s.r] == JoinCell(s.onLeft, RootOf(s.inner), RootOf(s.far), s.n, s.rRed)
    ensures s.inner.Fork? ==> var b := s.inner.node; b in m && m[b].parent == s.r
    ensures s.inner.Fork? ==> s.inner.node != s.n && s.inner.node != s.r && s.inner.node != UpNode(p, null)
    ensures s.n != s.r && s.n != UpNode(p, null) && s.r != UpNode(p, null)
    ensures p.Step? ==> p.node in m
    ensures p.Step? && p.wentLeft ==> m[p.node].left == s.n
    ensures p.Step? && !p.wentLeft ==> m[p.node].right == s.n && m[p.node].left != s.n
    ensures p.Top? ==> rootNode == s.n
  {
    s.WholeDistinct();
    s.TurnedNodes();
    assert Linked(m, s.Low(), s.n);
    assert Linked(m, s.inner, s.r);
    assert p.Step? ==> p.node in PathNodes(p);
    assert s.inner.Fork? ==> s.inner.node in Nodes(s.inner);
    assert p.Step? && p.sibling.Fork? ==> p.sibling.node in PathNodes(p);
  }
}
