/** __cceph_rb_erase_color of common/rbtree.c: one black node is missing below `parent`. */
module RbEraseColor {
  import opened RbShape
  import opened RbLinks
  import opened RbFixups
  import opened RbTree

  lemma RedSiblingAt<K, V>(m: Snapshot<K, V>, m': Snapshot<K, V>, rootNode: Node?<K, V>, p: Path<Node<K, V>>, t: Tree<Node<K, V>>, h: nat)
    requires At(m, rootNode, p, t) && BlackMissing(p, t, h) && p.Step? && p.sibling.Fork? && p.sibling.red
    requires Painted(m, m', map[p.sibling.node := false, p.node := true])
    ensures At(m', rootNode, p.up, RedSiblingSpin(p, t).Whole())
    ensures SameNodes(Plug(p, t), Plug(p.up, RedSiblingSpin(p, t).Whole()))
    ensures SameNodes(Plug(p, t), Plug(RedSiblingPath(p), t))
    ensures Plug(RedSiblingPath(p), t) == Plug(p.up, RedSiblingSpin(p, t).Turned())
    ensures BlackMissing(RedSiblingPath(p), t, h) && IsBlack(RedSiblingPath(p).sibling)
  {
    var f := map[p.sibling.node := false, p.node := true];
    RedSiblingStep(p, t, h);
    PaintPlug(p, t, f);
    AtPaint(m, m', rootNode, p, t, f);
    RedSiblingSpin(p, t).TurnedSame(p.up);
    Move(m', rootNode, PaintPath(p, f), Paint(t, f), p.up, RedSiblingSpin(p, t).Whole());
  }

  lemma PaleSiblingAt<K, V>(m: Snapshot<K, V>, m': Snapshot<K, V>, rootNode: Node?<K, V>, p: Path<Node<K, V>>, t: Tree<Node<K, V>>, h: nat)
    requires At(m, rootNode, p, t) && BlackMissing(p, t, h) && IsBlack(t) && p.Step? && p.sibling.Fork?
    requires !p.sibling.red && IsBlack(p.sibling.left) && IsBlack(p.sibling.right)
    requires Painted(m, m', map[p.sibling.node := true])
    ensures At(m', rootNode, p.up, PaleSibling(p, t)) && SameNodes(Plug(p, t), Plug(p.up, PaleSibling(p, t)))
    ensures BlackMissing(p.up, PaleSibling(p, t), if p.red then h else h + 1)
  {
    var f := map[p.sibling.node := true];
    PaleSiblingPaint(p, t);
    PaleSiblingMissing(p, t, h);
    PaintPlug(p, t, f);
    AtPaint(m, m', rootNode, p, t, f);
    Move(m', rootNode, PaintPath(p, f), Paint(t, f), p.up, PaleSibling(p, t));
  }

  lemma NearRedAt<K, V>(m: Snapshot<K, V>, m': Snapshot<K, V>, rootNode: Node?<K, V>, p: Path<Node<K, V>>, t: Tree<Node<K, V>>, h: nat)
    requires At(m, rootNode, p, t) && BlackMissing(p, t, h) && p.Step? && p.sibling.Fork? && !p.sibling.red
    requires !IsBlack(Near(p.wentLeft, p.sibling)) && IsBlack(Far(p.wentLeft, p.sibling))
    requires Painted(m, m', map[Near(p.wentLeft, p.sibling).node := false, p.sibling.node := true])
    ensures var d, spin, hole := p.wentLeft, NearRedSpin(p), Step(p.up, !p.wentLeft, p.node, p.red, t);
      && At(m', rootNode, hole, spin.Whole()) && SameNodes(Plug(p, t), Plug(hole, spin.Whole()))
      && Plug(p.(sibling := spin.Turned()), t) == Plug(hole, spin.Turned())
      && SameNodes(Plug(p, t), Plug(p.(sibling := spin.Turned()), t))
      && BlackMissing(p.(sibling := spin.Turned()), t, h)
      && !spin.Turned().red && !IsBlack(Far(d, spin.Turned()))
  {
    var f := map[Near(p.wentLeft, p.sibling).node := false, p.sibling.node := true];
    var hole := Step(p.up, !p.wentLeft, p.node, p.red, t);
    NearRedStep(p, t, h);
    PaintPlug(p, t, f);
    AtPaint(m, m', rootNode, p, t, f);
    NearRedSpin(p).TurnedSame(hole);
    Move(m', rootNode, PaintPath(p, f), Paint(t, f), hole, NearRedSpin(p).Whole());
  }

  lemma FarRedAt<K, V>(m: Snapshot<K, V>, m': Snapshot<K, V>, rootNode: Node?<K, V>, p: Path<Node<K, V>>, t: Tree<Node<K, V>>, h: nat)
    requires At(m, rootNode, p, t) && BlackMissing(p, t, h) && IsBlack(t) && p.Step? && p.sibling.Fork? && !p.sibling.red
    requires !IsBlack(Far(p.wentLeft, p.sibling))
    requires Painted(m, m', map[p.sibling.node := p.red, p.node := false, Far(p.wentLeft, p.sibling).node := false])
    ensures At(m', rootNode, p.up, FarRedSpin(p, t).Whole())
    ensures SameNodes(Plug(p, t), Plug(p.up, FarRedSpin(p, t).Turned()))
    ensures RedBlack(Plug(p.up, FarRedSpin(p, t).Turned()))
  {
    var f := map[p.sibling.node := p.red, p.node := false, Far(p.wentLeft, p.sibling).node := false];
    FarRedPaint(p, t);
    FarRedDone(p, t, h);
    PaintPlug(p, t, f);
    AtPaint(m, m', rootNode, p, t, f);
    FarRedSpin(p, t).TurnedSame(p.up);
    Move(m', rootNode, PaintPath(p, f), Paint(t, f), p.up, FarRedSpin(p, t).Whole());
  }

  lemma BlackenAt<K, V>(m: Snapshot<K, V>, m': Snapshot<K, V>, rootNode: Node?<K, V>, p: Path<Node<K, V>>, t: Tree<Node<K, V>>)
    requires At(m, rootNode, p, t) && t.Fork? && Painted(m, m', map[t.node := false])
    ensures At(m', rootNode, p, Blacken(t)) && SameNodes(Plug(p, t), Plug(p, Blacken(t)))
  {
    var f := map[t.node := false];
    assert f.Keys == {t.node};
    RootPaint(t, f);
    PaintPathNodes(p, f);
    PaintPlug(p, t, f);
    AtPaint(m, m', rootNode, p, t, f);
  }

  /** What a snapshot says about the node below the hole; it is the root's only on an empty path. */
  lemma FocusCells<K, V>(m: Snapshot<K, V>, rootNode: Node?<K, V>, p: Path<Node<K, V>>, t: Tree<Node<K, V>>)
    requires At(m, rootNode, p, t)
    ensures t.Fork? ==> t.node in m && m[t.node].red == t.red
    ensures p.Step? ==> p.node in m
    ensures RootOf(t) == rootNode <==> p.Top?
  {
    if p.Step? {
      ChainRoot(m, p, RootOf(t), rootNode);
    }
  }

  lemma {:induction false} ChainRoot<K, V>(m: Snapshot<K, V>, p: Path<Node<K, V>>, hole: Node?<K, V>, rootNode: Node?<K, V>)
    requires Chain(m, p, hole, rootNode, null) && p.Step?
    ensures rootNode != null && rootNode in PathNodes(p)
  {
    if p.up.Step? {
      ChainRoot(m, p.up, p.node, rootNode);
    }
  }

  /** What a snapshot says about the children of the sibling. */
  lemma SiblingCells<K, V>(m: Snapshot<K, V>, rootNode: Node?<K, V>, p: Path<Node<K, V>>, t: Tree<Node<K, V>>)
    requires At(m, rootNode, p, t) && p.Step? && p.sibling.Fork?
    ensures forall c :: (c == p.sibling.left || c == p.sibling.right) && c.Fork? ==>
      c.node in m && m[c.node].red == c.red && c.node != p.node && c.node != p.sibling.node
  {
    assert Linked(m, p.sibling, p.node);
    assert Linked(m, p.sibling.left, p.sibling.node) && Linked(m, p.sibling.right, p.sibling.node);
    assert Distinct(p.sibling);
  }

  /** Red sibling: after this step the sibling is black. */
  method EraseRedSiblingLeft<K, V>(other: Node<K, V>, parent: Node<K, V>, root: Root<K, V>,
                                   ghost p: Path<Node<K, V>>, ghost t: Tree<Node<K, V>>, ghost h: nat)
    requires root.Holds(p, t) && BlackMissing(p, t, h) && p.Step? && p.wentLeft
    requires p.sibling.Fork? && p.sibling.red && other == p.sibling.node && parent == p.node
    modifies root, root.all
    ensures root.all == old(root.all) && root.Holds(RedSiblingPath(p), t)
    ensures BlackMissing(RedSiblingPath(p), t, h) && IsBlack(RedSiblingPath(p).sibling)
    ensures SameNodes(Plug(p, t), Plug(RedSiblingPath(p), t))
  {
    ghost var m := View(root.all);
    PathCells(m, root.node, p, t);
    root.Paint2(other, false, parent, true);
    RedSiblingAt(m, View(root.all), root.node, p, t, h);
    root.RotateLeft(parent, p.up, RedSiblingSpin(p, t));
    Move(View(root.all), root.node, p.up, RedSiblingSpin(p, t).Turned(), RedSiblingPath(p), t);
  }

  /** Black sibling, only the near child red: after this step the far child is red. */
  method EraseNearRedLeft<K, V>(other: Node<K, V>, root: Root<K, V>,
                                ghost p: Path<Node<K, V>>, ghost t: Tree<Node<K, V>>, ghost h: nat)
    requires root.Holds(p, t) && BlackMissing(p, t, h) && p.Step? && p.wentLeft
    requires p.sibling.Fork? && !p.sibling.red && other == p.sibling.node
    requires !IsBlack(p.sibling.left) && IsBlack(p.sibling.right)
    modifies root, root.all
    ensures root.all == old(root.all)
    ensures var q := p.(sibling := NearRedSpin(p).Turned());
      && root.Holds(q, t) && BlackMissing(q, t, h) && SameNodes(Plug(p, t), Plug(q, t))
      && !q.sibling.red && !IsBlack(q.sibling.right)
  {
    ghost var m := View(root.all);
    ghost var spin, hole := NearRedSpin(p), Step(p.up, !p.wentLeft, p.node, p.red, t);
    PathCells(m, root.node, p, t);
    SiblingCells(m, root.node, p, t);
    root.Paint2(other.left, false, other, true);
    NearRedAt(m, View(root.all), root.node, p, t, h);
    root.RotateRight(other, hole, spin);
    Move(View(root.all), root.node, hole, spin.Turned(), p.(sibling := spin.Turned()), t);
  }

  /** Black sibling with a red far child: one rotation supplies the missing black node. */
  method EraseFarRedLeft<K, V>(other: Node<K, V>, parent: Node<K, V>, root: Root<K, V>,
                               ghost p: Path<Node<K, V>>, ghost t: Tree<Node<K, V>>, ghost h: nat)
    requires root.Holds(p, t) && BlackMissing(p, t, h) && IsBlack(t) && p.Step? && p.wentLeft
    requires p.sibling.Fork? && !p.sibling.red && other == p.sibling.node && parent == p.node
    requires !IsBlack(p.sibling.right)
    modifies root, root.all
    ensures root.all == old(root.all)
    ensures var w := Plug(p.up, FarRedSpin(p, t).Turned());
      && root.Holds(Top, w) && RedBlack(w) && SameNodes(Plug(p, t), Plug(Top, w))
      && root.node == RootOf(w)
  {
    ghost var m := View(root.all);
    PathCells(m, root.node, p, t);
    SiblingCells(m, root.node, p, t);
    root.Paint3(other, parent.red, parent, false, other.right, false);
    FarRedAt(m, View(root.all), root.node, p, t, h);
    root.RotateLeft(parent, p.up, FarRedSpin(p, t));
    Zip(View(root.all), root.node, p.up, FarRedSpin(p, t).Turned());
  }

  /** One turn of the loop, the hole being a left child. */
  method EraseStepLeft<K, V>(n0: Node?<K, V>, parent0: Node<K, V>, root: Root<K, V>,
                             ghost p0: Path<Node<K, V>>, ghost t0: Tree<Node<K, V>>, ghost h0: nat)
    returns (n: Node?<K, V>, parent: Node?<K, V>, done: bool, ghost p: Path<Node<K, V>>, ghost t: Tree<Node<K, V>>, ghost h: nat)
    requires root.Holds(p0, t0) && BlackMissing(p0, t0, h0) && IsBlack(t0)
    requires p0.Step? && p0.wentLeft && n0 == RootOf(t0) && parent0 == p0.node
    modifies root, root.all
    ensures root.all == old(root.all) && root.Holds(p, t) && BlackMissing(p, t, h)
    ensures n == RootOf(t) && (!done ==> parent == UpNode(p, null)) && (done ==> p.Top?)
    ensures SameNodes(Plug(p0, t0), Plug(p, t)) && (IsBlack(t) ==> Depth(p) < Depth(p0))
  {
    n, parent, done, p, t, h := n0, parent0, false, p0, t0, h0;
    MissingHasSibling(p, t, h);
    PathCells(View(root.all), root.node, p, t);
    var other := parent0.right;
    if other.red {
      EraseRedSiblingLeft(other, parent0, root, p, t, h);
      p := RedSiblingPath(p);
      PathCells(View(root.all), root.node, p, t);
      MissingHasSibling(p, t, h);
      other := parent0.right;
    }
    n, parent, done, p, t, h := EraseBlackSiblingLeft(other, parent0, root, p, t, h);
  }

  method EraseBlackSiblingLeft<K, V>(other0: Node<K, V>, parent0: Node<K, V>, root: Root<K, V>,
                                     ghost p0: Path<Node<K, V>>, ghost t0: Tree<Node<K, V>>, ghost h0: nat)
    returns (n: Node?<K, V>, parent: Node?<K, V>, done: bool, ghost p: Path<Node<K, V>>, ghost t: Tree<Node<K, V>>, ghost h: nat)
    requires root.Holds(p0, t0) && BlackMissing(p0, t0, h0) && IsBlack(t0)
    requires p0.Step? && p0.wentLeft && parent0 == p0.node && p0.sibling.Fork? && !p0.sibling.red && other0 == p0.sibling.node
    modifies root, root.all
    ensures root.all == old(root.all) && root.Holds(p, t) && BlackMissing(p, t, h)
    ensures n == RootOf(t) && (!done ==> parent == UpNode(p, null)) && (done ==> p.Top?)
    ensures SameNodes(Plug(p0, t0), Plug(p, t))
    ensures !done ==> p == p0.up && (p0.red ==> !IsBlack(t))
  {
    hide At, Ctx, Rb, Lacking, RedBlack, Plug, Depth, Nodes, Inorder;
    var other := other0;
    p, t, h, parent := p0, t0, h0, parent0;
    PathCells(View(root.all), root.node, p, t);
    SiblingCells(View(root.all), root.node, p, t);
    if (other.left == null || !other.left.red) && (other.right == null || !other.right.red) {
      n, parent, p, t, h := ErasePale(other, parent0, root, p, t, h);
      done := false;
    } else {
      n, p, t, h := EraseRotateLeft(other, parent0, root, p, t, h);
      done := true;
    }
  }

  /** Black sibling with a red child: one or two rotations end the loop. */
  method EraseRotateLeft<K, V>(other0: Node<K, V>, parent: Node<K, V>, root: Root<K, V>,
                               ghost p0: Path<Node<K, V>>, ghost t0: Tree<Node<K, V>>, ghost h0: nat)
    returns (n: Node?<K, V>, ghost p: Path<Node<K, V>>, ghost t: Tree<Node<K, V>>, ghost h: nat)
    requires root.Holds(p0, t0) && BlackMissing(p0, t0, h0) && IsBlack(t0)
    requires p0.Step? && p0.wentLeft && parent == p0.node && p0.sibling.Fork? && !p0.sibling.red && other0 == p0.sibling.node
    requires !(IsBlack(p0.sibling.left) && IsBlack(p0.sibling.right))
    modifies root, root.all
    ensures root.all == old(root.all) && root.Holds(p, t) && BlackMissing(p, t, h)
    ensures n == RootOf(t) && p.Top? && SameNodes(Plug(p0, t0), Plug(p, t))
  {
    hide At, Ctx, Rb, Lacking, RedBlack, Plug, Depth, Nodes, Inorder;
    var other := other0;
    p, t, h := p0, t0, h0;
    PathCells(View(root.all), root.node, p, t);
    SiblingCells(View(root.all), root.node, p, t);
    if other.right == null || !other.right.red {
      EraseNearRedLeft(other, root, p, t, h);
      p := p.(sibling := NearRedSpin(p).Turned());
      PathCells(View(root.all), root.node, p, t);
      other := parent.right;
    }
    EraseFarRedLeft(other, parent, root, p, t, h);
    t := Plug(p.up, FarRedSpin(p, t).Turned());
    p := Top;
    h := RedBlackHeight(t);
    n := root.node;
  }

  /** Red sibling: after this step the sibling is black. */
  method EraseRedSiblingRight<K, V>(other: Node<K, V>, parent: Node<K, V>, root: Root<K, V>,
                                   ghost p: Path<Node<K, V>>, ghost t: Tree<Node<K, V>>, ghost h: nat)
    requires root.Holds(p, t) && BlackMissing(p, t, h) && p.Step? && !p.wentLeft
    requires p.sibling.Fork? && p.sibling.red && other == p.sibling.node && parent == p.node
    modifies root, root.all
    ensures root.all == old(root.all) && root.Holds(RedSiblingPath(p), t)
    ensures BlackMissing(RedSiblingPath(p), t, h) && IsBlack(RedSiblingPath(p).sibling)
    ensures SameNodes(Plug(p, t), Plug(RedSiblingPath(p), t))
  {
    ghost var m := View(root.all);
    PathCells(m, root.node, p, t);
    root.Paint2(other, false, parent, true);
    RedSiblingAt(m, View(root.all), root.node, p, t, h);
    root.RotateRight(parent, p.up, RedSiblingSpin(p, t));
    Move(View(root.all), root.node, p.up, RedSiblingSpin(p, t).Turned(), RedSiblingPath(p), t);
  }

  /** Black sibling, only the near child red: after this step the far child is red. */
  method EraseNearRedRight<K, V>(other: Node<K, V>, root: Root<K, V>,
                                ghost p: Path<Node<K, V>>, ghost t: Tree<Node<K, V>>, ghost h: nat)
    requires root.Holds(p, t) && BlackMissing(p, t, h) && p.Step? && !p.wentLeft
    requires p.sibling.Fork? && !p.sibling.red && other == p.sibling.node
    requires !IsBlack(p.sibling.right) && IsBlack(p.sibling.left)
    modifies root, root.all
    ensures root.all == old(root.all)
    ensures var q := p.(sibling := NearRedSpin(p).Turned());
      && root.Holds(q, t) && BlackMissing(q, t, h) && SameNodes(Plug(p, t), Plug(q, t))
      && !q.sibling.red && !IsBlack(q.sibling.left)
  {
    ghost var m := View(root.all);
    ghost var spin, hole := NearRedSpin(p), Step(p.up, !p.wentLeft, p.node, p.red, t);
    PathCells(m, root.node, p, t);
    SiblingCells(m, root.node, p, t);
    root.Paint2(other.right, false, other, true);
    NearRedAt(m, View(root.all), root.node, p, t, h);
    root.RotateLeft(other, hole, spin);
    Move(View(root.all), root.node, hole, spin.Turned(), p.(sibling := spin.Turned()), t);
  }

  /** Black sibling with a red far child: one rotation supplies the missing black node. */
  method EraseFarRedRight<K, V>(other: Node<K, V>, parent: Node<K, V>, root: Root<K, V>,
                               ghost p: Path<Node<K, V>>, ghost t: Tree<Node<K, V>>, ghost h: nat)
    requires root.Holds(p, t) && BlackMissing(p, t, h) && IsBlack(t) && p.Step? && !p.wentLeft
    requires p.sibling.Fork? && !p.sibling.red && other == p.sibling.node && parent == p.node
    requires !IsBlack(p.sibling.left)
    modifies root, root.all
    ensures root.all == old(root.all)
    ensures var w := Plug(p.up, FarRedSpin(p, t).Turned());
      && root.Holds(Top, w) && RedBlack(w) && SameNodes(Plug(p, t), Plug(Top, w))
      && root.node == RootOf(w)
  {
    ghost var m := View(root.all);
    PathCells(m, root.node, p, t);
    SiblingCells(m, root.node, p, t);
    root.Paint3(other, parent.red, parent, false, other.left, false);
    FarRedAt(m, View(root.all), root.node, p, t, h);
    root.RotateRight(parent, p.up, FarRedSpin(p, t));
    Zip(View(root.all), root.node, p.up, FarRedSpin(p, t).Turned());
  }

  /** One turn of the loop, the hole being a right child. */
  method EraseStepRight<K, V>(n0: Node?<K, V>, parent0: Node<K, V>, root: Root<K, V>,
                             ghost p0: Path<Node<K, V>>, ghost t0: Tree<Node<K, V>>, ghost h0: nat)
    returns (n: Node?<K, V>, parent: Node?<K, V>, done: bool, ghost p: Path<Node<K, V>>, ghost t: Tree<Node<K, V>>, ghost h: nat)
    requires root.Holds(p0, t0) && BlackMissing(p0, t0, h0) && IsBlack(t0)
    requires p0.Step? && !p0.wentLeft && n0 == RootOf(t0) && parent0 == p0.node
    modifies root, root.all
    ensures root.all == old(root.all) && root.Holds(p, t) && BlackMissing(p, t, h)
    ensures n == RootOf(t) && (!done ==> parent == UpNode(p, null)) && (done ==> p.Top?)
    ensures SameNodes(Plug(p0, t0), Plug(p, t)) && (IsBlack(t) ==> Depth(p) < Depth(p0))
  {
    n, parent, done, p, t, h := n0, parent0, false, p0, t0, h0;
    MissingHasSibling(p, t, h);
    PathCells(View(root.all), root.node, p, t);
    var other := parent0.left;
    if other.red {
      EraseRedSiblingRight(other, parent0, root, p, t, h);
      p := RedSiblingPath(p);
      PathCells(View(root.all), root.node, p, t);
      MissingHasSibling(p, t, h);
      other := parent0.left;
    }
    n, parent, done, p, t, h := EraseBlackSiblingRight(other, parent0, root, p, t, h);
  }

  method EraseBlackSiblingRight<K, V>(other0: Node<K, V>, parent0: Node<K, V>, root: Root<K, V>,
                                     ghost p0: Path<Node<K, V>>, ghost t0: Tree<Node<K, V>>, ghost h0: nat)
    returns (n: Node?<K, V>, parent: Node?<K, V>, done: bool, ghost p: Path<Node<K, V>>, ghost t: Tree<Node<K, V>>, ghost h: nat)
    requires root.Holds(p0, t0) && BlackMissing(p0, t0, h0) && IsBlack(t0)
    requires p0.Step? && !p0.wentLeft && parent0 == p0.node && p0.sibling.Fork? && !p0.sibling.red && other0 == p0.sibling.node
    modifies root, root.all
    ensures root.all == old(root.all) && root.Holds(p, t) && BlackMissing(p, t, h)
    ensures n == RootOf(t) && (!done ==> parent == UpNode(p, null)) && (done ==> p.Top?)
    ensures SameNodes(Plug(p0, t0), Plug(p, t))
    ensures !done ==> p == p0.up && (p0.red ==> !IsBlack(t))
  {
    hide At, Ctx, Rb, Lacking, RedBlack, Plug, Depth, Nodes, Inorder;
    var other := other0;
    p, t, h, parent := p0, t0, h0, parent0;
    PathCells(View(root.all), root.node, p, t);
    SiblingCells(View(root.all), root.node, p, t);
    if (other.right == null || !other.right.red) && (other.left == null || !other.left.red) {
      n, parent, p, t, h := ErasePale(other, parent0, root, p, t, h);
      done := false;
    } else {
      n, p, t, h := EraseRotateRight(other, parent0, root, p, t, h);
      done := true;
    }
  }

  /** Black sibling with a red child: one or two rotations end the loop. */
  method EraseRotateRight<K, V>(other0: Node<K, V>, parent: Node<K, V>, root: Root<K, V>,
                               ghost p0: Path<Node<K, V>>, ghost t0: Tree<Node<K, V>>, ghost h0: nat)
    returns (n: Node?<K, V>, ghost p: Path<Node<K, V>>, ghost t: Tree<Node<K, V>>, ghost h: nat)
    requires root.Holds(p0, t0) && BlackMissing(p0, t0, h0) && IsBlack(t0)
    requires p0.Step? && !p0.wentLeft && parent == p0.node && p0.sibling.Fork? && !p0.sibling.red && other0 == p0.sibling.node
    requires !(IsBlack(p0.sibling.right) && IsBlack(p0.sibling.left))
    modifies root, root.all
    ensures root.all == old(root.all) && root.Holds(p, t) && BlackMissing(p, t, h)
    ensures n == RootOf(t) && p.Top? && SameNodes(Plug(p0, t0), Plug(p, t))
  {
    hide At, Ctx, Rb, Lacking, RedBlack, Plug, Depth, Nodes, Inorder;
    var other := other0;
    p, t, h := p0, t0, h0;
    PathCells(View(root.all), root.node, p, t);
    SiblingCells(View(root.all), root.node, p, t);
    if other.left == null || !other.left.red {
      EraseNearRedRight(other, root, p, t, h);
      p := p.(sibling := NearRedSpin(p).Turned());
      PathCells(View(root.all), root.node, p, t);
      other := parent.left;
    }
    EraseFarRedRight(other, parent, root, p, t, h);
    t := Plug(p.up, FarRedSpin(p, t).Turned());
    p := Top;
    h := RedBlackHeight(t);
    n := root.node;
  }

  /** Black sibling with black children: it turns red and the hole moves up. */
  method ErasePale<K, V>(other: Node<K, V>, parent0: Node<K, V>, root: Root<K, V>,
                         ghost p0: Path<Node<K, V>>, ghost t0: Tree<Node<K, V>>, ghost h0: nat)
    returns (n: Node<K, V>, parent: Node?<K, V>, ghost p: Path<Node<K, V>>, ghost t: Tree<Node<K, V>>, ghost h: nat)
    requires root.Holds(p0, t0) && BlackMissing(p0, t0, h0) && IsBlack(t0)
    requires p0.Step? && parent0 == p0.node && p0.sibling.Fork? && !p0.sibling.red && other == p0.sibling.node
    requires IsBlack(p0.sibling.left) && IsBlack(p0.sibling.right)
    modifies root.all
    ensures root.Holds(p, t) && BlackMissing(p, t, h)
    ensures n == RootOf(t) && parent == UpNode(p, null) && SameNodes(Plug(p0, t0), Plug(p, t))
    ensures p == p0.up && (p0.red ==> !IsBlack(t))
  {
    ghost var m := View(root.all);
    PathCells(m, root.node, p0, t0);
    root.Paint1(other, true);
    PaleSiblingAt(m, View(root.all), root.node, p0, t0, h0);
    n := parent0;
    p, t, h := p0.up, PaleSibling(p0, t0), if p0.red then h0 else h0 + 1;
    PathCells(View(root.all), root.node, p, t);
    parent := n.parent;
  }

  /** The final cceph_rb_set_black(node). */
  method BlackenFocus<K, V>(n: Node?<K, V>, root: Root<K, V>, ghost p: Path<Node<K, V>>, ghost t: Tree<Node<K, V>>)
    requires root.Holds(p, t) && n == RootOf(t)
    modifies root.all
    ensures root.Holds(p, Blacken(t)) && SameNodes(Plug(p, t), Plug(p, Blacken(t)))
  {
    FocusCells(View(root.all), root.node, p, t);
    if n != null {
      ghost var m := View(root.all);
      root.Paint1(n, false);
      BlackenAt(m, View(root.all), root.node, p, t);
    }
  }

  lemma RedBlackHeight<T>(w: Tree<T>) returns (h: nat)
    requires RedBlack(w)
    ensures BlackMissing(Top, w, h)
  {
    h :| Rb(w, h);
  }

  method EraseStep<K, V>(n0: Node?<K, V>, parent0: Node<K, V>, root: Root<K, V>,
                         ghost p0: Path<Node<K, V>>, ghost t0: Tree<Node<K, V>>, ghost h0: nat)
    returns (n: Node?<K, V>, parent: Node?<K, V>, done: bool, ghost p: Path<Node<K, V>>, ghost t: Tree<Node<K, V>>, ghost h: nat)
    requires root.Holds(p0, t0) && BlackMissing(p0, t0, h0) && IsBlack(t0)
    requires p0.Step? && n0 == RootOf(t0) && parent0 == p0.node
    modifies root, root.all
    ensures root.all == old(root.all) && root.Holds(p, t) && BlackMissing(p, t, h)
    ensures n == RootOf(t) && (!done ==> parent == UpNode(p, null)) && (done ==> p.Top?)
    ensures SameNodes(Plug(p0, t0), Plug(p, t)) && (IsBlack(t) ==> Depth(p) < Depth(p0))
  {
    MissingHasSibling(p0, t0, h0);
    PathCells(View(root.all), root.node, p0, t0);
    hide At, Ctx, Rb, Lacking, Plug, Nodes, Inorder, Depth;
    if parent0.left == n0 {
      n, parent, done, p, t, h := EraseStepLeft(n0, parent0, root, p0, t0, h0);
    } else {
      n, parent, done, p, t, h := EraseStepRight(n0, parent0, root, p0, t0, h0);
    }
  }

  /** __cceph_rb_erase_color */
  method EraseColor<K, V>(n0: Node?<K, V>, parent0: Node?<K, V>, root: Root<K, V>,
                          ghost p0: Path<Node<K, V>>, ghost t0: Tree<Node<K, V>>, ghost h0: nat)
    returns (ghost w: Tree<Node<K, V>>)
    requires root.Holds(p0, t0) && BlackMissing(p0, t0, h0)
    requires n0 == RootOf(t0) && parent0 == UpNode(p0, null)
    modifies root, root.all
    ensures root.all == old(root.all) && root.Holds(Top, w) && RedBlack(w) && SameNodes(Plug(p0, t0), w)
  {
    hide At, Ctx, Rb, Lacking, RedBlack, Plug, Nodes, Inorder, Depth;
    var n, parent := n0, parent0;
    ghost var p, t, h := p0, t0, h0;
    FocusCells(View(root.all), root.node, p, t);
    while (n == null || !n.red) && n != root.node
      invariant root.all == old(root.all) && root.Holds(p, t) && BlackMissing(p, t, h)
      invariant n == RootOf(t) && (p.Step? ==> parent == p.node && p.node in root.all)
      invariant n != null ==> n in root.all && n.red == t.red
      invariant n == root.node <==> p.Top?
      invariant SameNodes(Plug(p0, t0), Plug(p, t))
      decreases if IsBlack(t) then 1 + Depth(p) else 0
    {
      var done;
      n, parent, done, p, t, h := EraseStep(n, parent, root, p, t, h);
      FocusCells(View(root.all), root.node, p, t);
      if done {
        break;
      }
    }
    MissingGone(p, t, h);
    BlackenFocus(n, root, p, t);
    w := Plug(p, Blacken(t));
    Zip(View(root.all), root.node, p, Blacken(t));
  }
}
