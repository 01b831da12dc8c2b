/** cceph_rb_erase of common/rbtree.c. */
module RbErase {
  import opened RbShape
  import opened RbLinks
  import opened RbFixups
  import opened RbTree
  import opened RbEraseColor

  /** `q` with the node of `t` at the hole spliced out, `t` having at most one child. */
  ghost function OnlyChild<T>(t: Tree<T>): Tree<T>
    requires t.Fork?
  {
    if t.left.Leaf? then t.right else t.left
  }

  lemma SpliceColours<T>(p: Path<T>, t: Tree<T>) returns (h: nat)
    requires RedBlack(Plug(p, t)) && t.Fork? && (t.left.Leaf? || t.right.Leaf?)
    ensures t.red ==> RedBlack(Plug(p, OnlyChild(t)))
    ensures !t.red ==> BlackMissing(p, OnlyChild(t), h)
  {
    var k := UnplugRb(p, t);
    if t.red {
      h := 0;
      PlugRb(p, OnlyChild(t), k);
    } else {
      h := k - 1;
    }
  }

  lemma SpliceInorder<T>(p: Path<T>, t: Tree<T>) returns (k: nat)
    requires t.Fork? && (t.left.Leaf? || t.right.Leaf?)
    ensures RemovedAt(Inorder(Plug(p, t)), Inorder(Plug(p, OnlyChild(t))), k, t.node)
  {
    var a, b := Before(p) + Inorder(t.left), Inorder(t.right) + After(p);
    InorderAt(p, t);
    PlugInorder(p, OnlyChild(t));
    JoinEmpty(Before(p), Inorder(t.left), Inorder(t.right), After(p));
    k := |a|;
    RemoveMiddle(a, t.node, b);
  }

  lemma JoinEmpty<T>(a: seq<T>, b: seq<T>, c: seq<T>, d: seq<T>)
    ensures b == [] ==> (a + b) + (c + d) == a + c + d
    ensures c == [] ==> (a + b) + (c + d) == a + b + d
  {}

  ghost predicate RemovedAt<T>(s: seq<T>, s': seq<T>, k: nat, x: T) {
    k < |s| && s[k] == x && s' == s[..k] + s[k + 1..]
  }

  lemma SpliceAt<K, V>(m: Snapshot<K, V>, m': Snapshot<K, V>, rootNode: Node?<K, V>, rootNode': Node?<K, V>, p: Path<Node<K, V>>, t: Tree<Node<K, V>>)
    requires At(m, rootNode, p, t) && t.Fork? && (t.left.Leaf? || t.right.Leaf?)
    requires var c := OnlyChild(t); c.Fork? ==> c.node in m && c.node in m' && m'[c.node] == m[c.node].(parent := UpNode(p, null))
    requires Relinked(m, m', rootNode, rootNode', p, RootOf(OnlyChild(t)))
    requires SameOn(m, m', m.Keys - (if OnlyChild(t).Fork? then {OnlyChild(t).node} else {}) - (if p.Step? then {p.node} else {}))
    ensures At(m', rootNode', p, OnlyChild(t))
  {
    var c := OnlyChild(t);
    var touched := (if c.Fork? then {c.node} else {}) + (if p.Step? then {p.node} else {});
    assert SameOn(m, m', m.Keys - touched);
    assert p.Step? ==> p.node in PathNodes(p);
    assert c.Fork? ==> c.node in Nodes(c);
    assert Nodes(c) <= Nodes(t) && Distinct(c);
    if c.Fork? { SameOnLess(m, m', touched, Nodes(c) - {c.node}); }
    if p.Step? { SameOnLess(m, m', touched, PathNodes(p) - {p.node}); }
    LinkedReparent(m, m', c, t.node, UpNode(p, null));
    ChainRelink(m, m', rootNode, rootNode', p, t.node, RootOf(c));
  }

  // ---- two children: the successor takes the erased node's place ----

  /** `sub` hangs at the left end of `r`; without its node `y`, which has no left child. */
  lemma MinParts<T>(spine: Path<T>, sub: Tree<T>)
    requires sub.Fork? && sub.left.Leaf? && Distinct(Plug(spine, sub))
    ensures var r, r' := Plug(spine, sub), Plug(spine, sub.right);
      && Distinct(r') && Nodes(r) == Nodes(r') + {sub.node} && sub.node !in Nodes(r')
      && DistinctPath(spine) && Distinct(sub) && PathNodes(spine) !! Nodes(sub)
  {
    PlugDistinct(spine, sub);
    PlugDistinct(spine, sub.right);
    PlugNodes(spine, sub);
    PlugNodes(spine, sub.right);
    assert Nodes(sub) == {sub.node} + Nodes(sub.right);
  }

  lemma MinInorder<T>(spine: Path<T>, sub: Tree<T>)
    requires sub.Fork? && sub.left.Leaf? && Before(spine) == []
    ensures Inorder(Plug(spine, sub)) == [sub.node] + Inorder(Plug(spine, sub.right))
  {
    hide Inorder, Plug, Before, After;
    PlugInorder(spine, sub);
    PlugInorder(spine, sub.right);
    InorderNoLeft(sub);
    HeadFirst(sub.node, Inorder(sub.right), After(spine));
  }

  lemma InorderNoLeft<T>(t: Tree<T>)
    requires t.Fork? && t.left.Leaf?
    ensures Inorder(t) == [t.node] + Inorder(t.right)
  {}

  lemma HeadFirst<T>(x: T, a: seq<T>, b: seq<T>)
    ensures [] + ([x] + a) + b == [x] + ([] + a + b)
  {}

  lemma {:induction false} CtxSwap<T>(spine: Path<T>, outer: Path<T>, outer': Path<T>, h: nat)
    requires outer.Step? && outer'.Step? && outer' == outer.(node := outer'.node)
    requires Ctx(Append(spine, outer), h)
    ensures Ctx(Append(spine, outer'), h)
  {
    match spine
    case Top =>
    case Step(up, _, _, c, _) => CtxSwap(up, outer, outer', if c then h else h + 1);
  }

  /** The colours do not care which node carries them. */
  lemma SuccessorColours<T>(spine: Path<T>, sub: Tree<T>, p: Path<T>, s: Tree<T>)
    requires s.Fork? && s.right == Plug(spine, sub) && sub.Fork? && RedBlack(Plug(p, s))
    ensures var q := Append(spine, Step(p, false, sub.node, s.red, s.left));
      && RedBlack(Plug(q, sub))
      && Plug(q, sub.right) == Plug(p, Fork(s.left, sub.node, s.red, Plug(spine, sub.right)))
  {
    var outer, outer' := Step(p, false, s.node, s.red, s.left), Step(p, false, sub.node, s.red, s.left);
    PlugAppend(spine, outer, sub);
    PlugAppend(spine, outer', sub);
    PlugAppend(spine, outer', sub.right);
    var h := UnplugRb(Append(spine, outer), sub);
    CtxSwap(spine, outer, outer', h);
    PlugRb(Append(spine, outer'), sub, h);
  }

  lemma SuccessorInorder<T>(spine: Path<T>, sub: Tree<T>, p: Path<T>, s: Tree<T>) returns (k: nat)
    requires s.Fork? && s.right == Plug(spine, sub) && sub.Fork? && sub.left.Leaf? && Before(spine) == []
    ensures RemovedAt(Inorder(Plug(p, s)), Inorder(Plug(p, Fork(s.left, sub.node, s.red, Plug(spine, sub.right)))), k, s.node)
  {
    var r' := Plug(spine, sub.right);
    var a, b := Before(p) + Inorder(s.left), Inorder(s.right) + After(p);
    MinInorder(spine, sub);
    InorderAt(p, s);
    InorderAt(p, Fork(s.left, sub.node, s.red, r'));
    Shift(a, sub.node, Inorder(r'), After(p));
    k := |a|;
    RemoveMiddle(a, s.node, b);
  }

  lemma Shift<T>(a: seq<T>, x: T, b: seq<T>, c: seq<T>)
    ensures a + [x] + (b + c) == a + (([x] + b) + c)
  {}

  lemma RemoveMiddle<T>(a: seq<T>, x: T, b: seq<T>)
    ensures RemovedAt(a + [x] + b, a + b, |a|, x)
  {}

  /** The link at the end of `p`, or the root, now leads to the successor. */
  lemma SuccessorLinked<K, V>(m: Snapshot<K, V>, m': Snapshot<K, V>, rootNode: Node?<K, V>, rootNode': Node?<K, V>, p: Path<Node<K, V>>, s: Tree<Node<K, V>>, y: Node<K, V>)
    requires At(m, rootNode, p, s) && s.Fork?
    requires Relinked(m, m', rootNode, rootNode', p, y)
    requires SameOn(m, m', m.Keys - (if p.Step? then {p.node} else {}))
    ensures Chain(m', p, y, rootNode', null) && Linked(m', s, UpNode(p, null))
  {
    assert p.Step? ==> p.node in PathNodes(p);
    LinkedFrame(m, m', s, UpNode(p, null));
    ChainRelink(m, m', rootNode, rootNode', p, s.node, y);
  }

  /** The successor is taken out of the left end of its tree; its right child moves up. */
  lemma MinDetached<K, V>(m: Snapshot<K, V>, m': Snapshot<K, V>, spine: Path<Node<K, V>>, sub: Tree<Node<K, V>>, above: Node?<K, V>)
    requires Linked(m, Plug(spine, sub), above) && Distinct(Plug(spine, sub))
    requires sub.Fork? && sub.left.Leaf? && spine.Step? && spine.wentLeft
    requires spine.node in m && spine.node in m' && m'[spine.node] == m[spine.node].(left := RootOf(sub.right))
    requires sub.right.Fork? ==> var b := sub.right.node; b in m && b in m' && m'[b] == m[b].(parent := spine.node)
    requires SameOn(m, m', m.Keys - {spine.node} - (if sub.right.Fork? then {sub.right.node} else {}))
    ensures Linked(m', Plug(spine, sub.right), above) && RootOf(Plug(spine, sub.right)) == RootOf(Plug(spine, sub))
  {
    MinParts(spine, sub);
    UnplugLinked(m, spine, sub, above);
    var b := sub.right;
    assert b.Fork? ==> b.node in Nodes(b);
    assert Nodes(b) <= Nodes(sub) && Distinct(b);
    assert Linked(m, b, sub.node);
    LinkedReparent(m, m', b, sub.node, spine.node);
    LinkedFrame(m, m', spine.sibling, spine.node);
    ChainFrame(m, m', spine.up, spine.node, RootOf(Plug(spine, sub)), above);
    PlugLinked(m', spine, b, RootOf(Plug(spine, sub)), above);
  }

  /** The successor, already linked from above, takes over both subtrees and the colour. */
  lemma SuccessorAdopted<K, V>(m: Snapshot<K, V>, m': Snapshot<K, V>, rootNode: Node?<K, V>, p: Path<Node<K, V>>, t: Tree<Node<K, V>>, lp: Node<K, V>, rp: Node<K, V>)
    requires t.Fork? && Distinct(t) && DistinctPath(p) && PathNodes(p) !! Nodes(t)
    requires Chain(m, p, t.node, rootNode, null) && Linked(m, t.left, lp) && Linked(m, t.right, rp)
    requires t.node in m' && m'[t.node] == Cell(RootOf(t.left), RootOf(t.right), UpNode(p, null), t.red)
    requires t.left.Fork? ==> var a := t.left.node; a in m && a in m' && m'[a] == m[a].(parent := t.node)
    requires t.right.Fork? ==> var b := t.right.node; b in m && b in m' && m'[b] == m[b].(parent := t.node)
    requires SameOn(m, m', m.Keys - {t.node} - (if t.left.Fork? then {t.left.node} else {}) - (if t.right.Fork? then {t.right.node} else {}))
    ensures At(m', rootNode, p, t)
  {
    assert t.left.Fork? ==> t.left.node in Nodes(t.left);
    assert t.right.Fork? ==> t.right.node in Nodes(t.right);
    LinkedReparent(m, m', t.left, lp, t.node);
    LinkedReparent(m, m', t.right, rp, t.node);
    ChainFrame(m, m', p, t.node, rootNode, null);
  }

  /** The link from `parent`, or from the root, that led to `from` now leads to `to`. */
  method Relink<K, V>(root: Root<K, V>, parent: Node?<K, V>, from: Node<K, V>, to: Node?<K, V>, ghost p: Path<Node<K, V>>)
    requires parent == UpNode(p, null)
    requires parent != null ==> parent in root.all
    requires parent != null ==> if p.wentLeft then parent.left == from else parent.left != from && parent.right == from
    modifies root`node, if parent == null then {} else {parent}
    ensures Relinked(old(View(root.all)), View(root.all), old(root.node), root.node, p, to)
    ensures SameOn(old(View(root.all)), View(root.all), root.all - (if p.Step? then {p.node} else {}))
  {
    if parent != null {
      if parent.left == from {
        parent.left := to;
      } else {
        parent.right := to;
      }
    } else {
      root.node := to;
    }
  }

  method DetachMin<K, V>(root: Root<K, V>, parent: Node<K, V>, child: Node?<K, V>)
    requires parent in root.all && parent != child && (child != null ==> child in root.all)
    modifies parent, if child == null then {} else {child}
    ensures var m, m' := old(View(root.all)), View(root.all);
      && m'[parent] == m[parent].(left := child)
      && (child != null ==> m'[child] == m[child].(parent := parent))
      && SameOn(m, m', root.all - {parent} - (if child != null then {child} else {}))
  {
    if child != null {
      child.parent := parent;
    }
    parent.left := child;
  }

  method Adopt<K, V>(root: Root<K, V>, victim: Node<K, V>, y: Node<K, V>, detached: bool)
    requires victim in root.all && y in root.all && victim != y
    requires victim.left != null && victim.left in root.all && victim.left != y && victim.left != victim
    requires detached ==> victim.right != null && victim.right in root.all && victim.right != y && victim.right != victim.left && victim.right != victim
    modifies root.all
    ensures var m, m' := old(View(root.all)), View(root.all);
      && m'[y] == Cell(m[victim].left, if detached then m[victim].right else m[y].right, m[victim].parent, m[victim].red)
      && m'[m[victim].left] == m[m[victim].left].(parent := y)
      && (detached ==> m'[m[victim].right] == m[m[victim].right].(parent := y))
      && SameOn(m, m', root.all - {y, m[victim].left} - (if detached then {m[victim].right} else {}))
  {
    if detached {
      y.right := victim.right;
      victim.right.parent := y;
    }
    y.parent, y.red := victim.parent, victim.red;
    y.left := victim.left;
    victim.left.parent := y;
  }

  /** Down the left links: the first node in order of the tree `r`. */
  method Leftmost<K, V>(n: Node<K, V>, root: Root<K, V>, ghost r: Tree<Node<K, V>>, ghost above: Node?<K, V>)
    returns (y: Node<K, V>, ghost spine: Path<Node<K, V>>, ghost sub: Tree<Node<K, V>>)
    requires Linked(View(root.all), r, above) && n == RootOf(r)
    ensures Plug(spine, sub) == r && sub.Fork? && sub.node == y && sub.left.Leaf?
    ensures Before(spine) == [] && (spine.Step? ==> spine.wentLeft)
  {
    y, spine, sub := n, Top, r;
    var left := y.left;
    while left != null
      invariant Plug(spine, sub) == r && sub.Fork? && sub.node == y && y in root.all && left == y.left
      invariant Before(spine) == [] && (spine.Step? ==> spine.wentLeft)
      invariant Linked(View(root.all), sub, UpNode(spine, above))
      decreases sub
    {
      assert Linked(View(root.all), sub.left, y);
      y, spine, sub := left, Step(spine, true, y, sub.red, sub.right), sub.left;
      left := y.left;
    }
  }

  /** At most one child: it is linked where `n` was. */
  method SpliceOut<K, V>(n: Node<K, V>, child: Node?<K, V>, root: Root<K, V>, ghost p: Path<Node<K, V>>, ghost t: Tree<Node<K, V>>)
    requires root.Holds(p, t) && t.Fork? && t.node == n && (t.left.Leaf? || t.right.Leaf?)
    requires child == RootOf(OnlyChild(t))
    modifies root, root.all
    ensures root.all == old(root.all) && root.Holds(p, OnlyChild(t))
  {
    ghost var m := View(root.all);
    PathCells(m, root.node, p, t);
    assert Linked(m, OnlyChild(t), n);
    LinkToHole(m, root.node, p, t);
    SpliceLinks(n, child, root, p);
    SpliceAt(m, View(root.all), old(root.node), root.node, p, t);
  }

  method SpliceLinks<K, V>(n: Node<K, V>, child: Node?<K, V>, root: Root<K, V>, ghost p: Path<Node<K, V>>)
    requires n in root.all && n.parent == UpNode(p, null) && n != n.parent
    requires child != null ==> child in root.all && child != n.parent && child != n
    requires n.parent != null ==> n.parent in root.all
    requires n.parent != null ==> if p.wentLeft then n.parent.left == n else n.parent.left != n && n.parent.right == n
    modifies root`node, root.all
    ensures var m, m' := old(View(root.all)), View(root.all);
      && (child != null ==> m'[child] == m[child].(parent := UpNode(p, null)))
      && Relinked(m, m', old(root.node), root.node, p, child)
      && SameOn(m, m', root.all - (if child != null then {child} else {}) - (if p.Step? then {p.node} else {}))
  {
    var parent := n.parent;
    if child != null {
      child.parent := parent;
    }
    Relink(root, parent, n, child, p);
  }

  /** The link at the end of the path leads to the focus only. */
  lemma LinkToHole<K, V>(m: Snapshot<K, V>, rootNode: Node?<K, V>, p: Path<Node<K, V>>, t: Tree<Node<K, V>>)
    requires At(m, rootNode, p, t) && t.Fork?
    ensures p.Step? ==> p.node in m
    ensures p.Step? && p.wentLeft ==> m[p.node].left == t.node
    ensures p.Step? && !p.wentLeft ==> m[p.node].right == t.node && m[p.node].left != t.node
    ensures OnlyChild(t).Fork? ==> OnlyChild(t).node != UpNode(p, null) && OnlyChild(t).node != t.node && OnlyChild(t).node in Nodes(t)
  {}

  /** What a snapshot says about the successor and its surroundings. */
  lemma SuccessorCells<K, V>(m: Snapshot<K, V>, s: Tree<Node<K, V>>, parent: Node?<K, V>, spine: Path<Node<K, V>>, sub: Tree<Node<K, V>>)
    requires Linked(m, s, parent) && s.Fork? && s.left.Fork? && s.right == Plug(spine, sub) && Distinct(s)
    requires sub.Fork? && sub.left.Leaf? && (spine.Step? ==> spine.wentLeft)
    ensures s.node in m && m[s.node] == Cell(s.left.node, RootOf(s.right), parent, s.red)
    ensures s.left.node in m && s.left.node != sub.node && s.left.node != s.node && Linked(m, s.left, s.node)
    ensures sub.node in m && sub.node != s.node && m[sub.node] == Cell(null, RootOf(sub.right), UpNode(spine, s.node), sub.red)
    ensures sub.right.Fork? ==> sub.right.node in m && m[sub.right.node].parent == sub.node && sub.right.node != s.node && sub.right.node != sub.node && sub.right.node != s.left.node
    ensures spine.Step? ==> spine.node in m && m[spine.node].left == sub.node && spine.node != s.node && spine.node != sub.node
    ensures spine.Step? ==> spine.node != RootOf(sub.right) && spine.node != s.left.node
    ensures spine.Step? ==> RootOf(s.right) != sub.node
    ensures Linked(m, s.right, s.node)
    ensures s.right.Fork? && s.right.node in m && s.right.node != s.left.node && s.right.node != s.node
  {
    UnplugLinked(m, spine, sub, s.node);
    MinParts(spine, sub);
    PlugNodes(spine, sub);
    PlugFork(spine, sub);
    assert Linked(m, sub.right, sub.node);
    assert sub.right.Fork? ==> sub.right.node in Nodes(sub.right);
    assert Nodes(sub.right) <= Nodes(sub) <= Nodes(s.right);
    assert s.left.node in Nodes(s.left) && s.right.node in Nodes(s.right);
    assert spine.Step? ==> spine.node in PathNodes(spine);
    if spine.Step? { TopOfSpine(spine, sub); }
  }

  lemma {:induction false} TopOfSpine<T>(spine: Path<T>, sub: Tree<T>)
    requires spine.Step?
    ensures Plug(spine, sub).Fork? && Plug(spine, sub).node in PathNodes(spine)
  {
    if spine.up.Step? {
      TopOfSpine(spine.up, Join(spine.wentLeft, sub, spine.node, spine.red, spine.sibling));
    }
  }

  /** The successor is linked from above and out of its old place, but has not yet taken over
      the erased node's subtrees. */
  ghost predicate Pulled<K, V>(m: Snapshot<K, V>, rootNode: Node?<K, V>, p: Path<Node<K, V>>, s: Tree<Node<K, V>>, spine: Path<Node<K, V>>, sub: Tree<Node<K, V>>)
    requires s.Fork? && s.left.Fork? && sub.Fork?
  {
    && Chain(m, p, sub.node, rootNode, null) && Linked(m, s.left, s.node) && s.left.node in m
    && Linked(m, Plug(spine, sub.right), if spine.Top? then sub.node else s.node)
    && s.node in m && m[s.node] == Cell(s.left.node, RootOf(s.right), UpNode(p, null), s.red)
    && sub.node in m && m[sub.node].right == RootOf(sub.right)
    && (spine.Step? ==> Plug(spine, sub.right).Fork? && Plug(spine, sub.right).node in m
                        && RootOf(s.right) == Plug(spine, sub.right).node)
    && (Plug(spine, sub.right).Fork? ==> Plug(spine, sub.right).node in m)
  }

  /** The nodes of the tree without the erased node. */
  lemma SuccessorDistinct<T>(s: Tree<T>, spine: Path<T>, sub: Tree<T>)
    requires s.Fork? && s.left.Fork? && s.right == Plug(spine, sub) && Distinct(s) && sub.Fork? && sub.left.Leaf?
    ensures var t := Fork(s.left, sub.node, s.red, Plug(spine, sub.right));
      && Distinct(t) && Nodes(s) == Nodes(t) + {s.node} && s.node !in Nodes(t)
      && s.left.node != sub.node && s.left.node in Nodes(t)
      && (t.right.Fork? ==> t.right.node in Nodes(t) && t.right.node != s.left.node && t.right.node != sub.node)
  {
    MinParts(spine, sub);
    NewRoot(s, sub.node, Plug(spine, sub.right));
  }

  lemma NewRoot<T>(s: Tree<T>, y: T, r: Tree<T>)
    requires s.Fork? && s.left.Fork? && Distinct(s)
    requires Distinct(r) && Nodes(s.right) == Nodes(r) + {y} && y !in Nodes(r)
    ensures var t := Fork(s.left, y, s.red, r);
      && Distinct(t) && Nodes(s) == Nodes(t) + {s.node} && s.node !in Nodes(t)
      && s.left.node != y && s.left.node in Nodes(t)
      && (r.Fork? ==> r.node in Nodes(t) && r.node != s.left.node && r.node != y)
  {}

  /** Nothing to detach: the successor is the erased node's right child. */
  lemma PulledTop<K, V>(m: Snapshot<K, V>, rootNode: Node?<K, V>, p: Path<Node<K, V>>, s: Tree<Node<K, V>>, sub: Tree<Node<K, V>>)
    requires s.Fork? && s.left.Fork? && s.right == sub && Distinct(s) && sub.Fork? && sub.left.Leaf?
    requires Chain(m, p, sub.node, rootNode, null) && Linked(m, s, UpNode(p, null))
    ensures Pulled(m, rootNode, p, s, Top, sub)
  {}

  lemma PulledStep<K, V>(m: Snapshot<K, V>, m': Snapshot<K, V>, rootNode: Node?<K, V>, p: Path<Node<K, V>>, s: Tree<Node<K, V>>, spine: Path<Node<K, V>>, sub: Tree<Node<K, V>>)
    requires s.Fork? && s.left.Fork? && s.right == Plug(spine, sub) && Distinct(s)
    requires sub.Fork? && sub.left.Leaf? && spine.Step? && spine.wentLeft
    requires DistinctPath(p) && PathNodes(p) !! Nodes(s)
    requires Chain(m, p, sub.node, rootNode, null) && Linked(m, s, UpNode(p, null))
    requires spine.node in m && spine.node in m' && m'[spine.node] == m[spine.node].(left := RootOf(sub.right))
    requires sub.right.Fork? ==> var b := sub.right.node; b in m && b in m' && m'[b] == m[b].(parent := spine.node)
    requires SameOn(m, m', m.Keys - {spine.node} - (if sub.right.Fork? then {sub.right.node} else {}))
    ensures Pulled(m', rootNode, p, s, spine, sub)
  {
    SuccessorCells(m, s, UpNode(p, null), spine, sub);
    MinDetached(m, m', spine, sub, s.node);
    TopOfSpine(spine, sub.right);
    PlugNodes(spine, sub);
    var touched := {spine.node} + (if sub.right.Fork? then {sub.right.node} else {});
    assert spine.node in PathNodes(spine);
    assert sub.right.Fork? ==> sub.right.node in Nodes(sub.right);
    assert Nodes(sub.right) <= Nodes(sub);
    assert touched <= Nodes(s.right) <= Nodes(s);
    assert SameOn(m, m', m.Keys - touched);
    SameOnLess(m, m', touched, PathNodes(p));
    SameOnLess(m, m', touched, Nodes(s.left));
    ChainFrame(m, m', p, sub.node, rootNode, null);
    LinkedFrame(m, m', s.left, s.node);
  }

  lemma PulledAdopted<K, V>(m: Snapshot<K, V>, m': Snapshot<K, V>, rootNode: Node?<K, V>, p: Path<Node<K, V>>, s: Tree<Node<K, V>>, spine: Path<Node<K, V>>, sub: Tree<Node<K, V>>)
    requires s.Fork? && s.left.Fork? && s.right == Plug(spine, sub) && Distinct(s) && sub.Fork? && sub.left.Leaf?
    requires DistinctPath(p) && PathNodes(p) !! Nodes(s)
    requires Pulled(m, rootNode, p, s, spine, sub) && m'.Keys == m.Keys
    requires m'[sub.node] == Cell(m[s.node].left, if spine.Step? then m[s.node].right else m[sub.node].right, m[s.node].parent, m[s.node].red)
    requires m'[s.left.node] == m[s.left.node].(parent := sub.node)
    requires var r' := Plug(spine, sub.right); spine.Step? ==> m'[r'.node] == m[r'.node].(parent := sub.node)
    requires var r' := Plug(spine, sub.right);
      SameOn(m, m', m.Keys - {sub.node, s.left.node} - (if spine.Step? then {r'.node} else {}))
    ensures At(m', rootNode, p, Fork(s.left, sub.node, s.red, Plug(spine, sub.right)))
  {
    SuccessorDistinct(s, spine, sub);
    var t := Fork(s.left, sub.node, s.red, Plug(spine, sub.right));
    if spine.Top? && t.right.Fork? {
      assert m[t.right.node].parent == sub.node;
    }
    SuccessorAdopted(m, m', rootNode, p, t, s.node, if spine.Top? then sub.node else s.node);
  }

  method LinkSuccessor<K, V>(victim: Node<K, V>, root: Root<K, V>, ghost p: Path<Node<K, V>>, ghost s: Tree<Node<K, V>>)
    returns (y: Node<K, V>, ghost spine: Path<Node<K, V>>, ghost sub: Tree<Node<K, V>>)
    requires root.Holds(p, s) && s.Fork? && s.node == victim && s.left.Fork? && s.right.Fork?
    modifies root, root.all
    ensures root.all == old(root.all)
    ensures s.right == Plug(spine, sub) && sub.Fork? && sub.left.Leaf? && Before(spine) == [] && sub.node == y
    ensures spine.Step? ==> spine.wentLeft
    ensures Chain(View(root.all), p, y, root.node, null) && Linked(View(root.all), s, UpNode(p, null))
  {
    ghost var m := View(root.all);
    PathCells(m, root.node, p, s);
    LinkToHole(m, root.node, p, s);
    assert Linked(m, s.right, victim);
    y, spine, sub := Leftmost(victim.right, root, s.right, victim);
    Relink(root, victim.parent, victim, y, p);
    SuccessorLinked(m, View(root.all), old(root.node), root.node, p, s, y);
  }

  /** Two children: the successor `y` is taken out of its place and linked in that of `victim`. */
  method PullSuccessor<K, V>(victim: Node<K, V>, root: Root<K, V>, ghost p: Path<Node<K, V>>, ghost s: Tree<Node<K, V>>)
    returns (y: Node<K, V>, child: Node?<K, V>, parent: Node<K, V>, red: bool, detached: bool, ghost spine: Path<Node<K, V>>, ghost sub: Tree<Node<K, V>>)
    requires root.Holds(p, s) && s.Fork? && s.node == victim && s.left.Fork? && s.right.Fork?
    modifies root, root.all
    ensures root.all == old(root.all) && detached == spine.Step?
    ensures s.right == Plug(spine, sub) && sub.Fork? && sub.left.Leaf? && Before(spine) == [] && sub.node == y && sub.red == red
    ensures Pulled(View(root.all), root.node, p, s, spine, sub)
    ensures child == RootOf(sub.right) && parent == (if spine.Top? then y else spine.node)
  {
    hide Chain, Linked, Distinct, DistinctPath, Nodes, PathNodes, Before, Pulled, SameOn;
    y, spine, sub := LinkSuccessor(victim, root, p, s);
    ghost var m := View(root.all);
    SuccessorCells(m, s, UpNode(p, null), spine, sub);
    child := y.right;
    red := y.red;
    var up := y.parent;
    detached := up != victim;
    if up == victim {
      parent := y;
      PulledTop(m, root.node, p, s, sub);
    } else {
      parent := up;
      DetachMin(root, up, child);
      PulledStep(m, View(root.all), root.node, p, s, spine, sub);
    }
  }

  /** Two children: `y` takes the place, the colour and the subtrees of `victim`. */
  method PutSuccessor<K, V>(victim: Node<K, V>, root: Root<K, V>, ghost p: Path<Node<K, V>>, ghost s: Tree<Node<K, V>>)
    returns (child: Node?<K, V>, parent: Node<K, V>, red: bool, ghost spine: Path<Node<K, V>>, ghost sub: Tree<Node<K, V>>)
    requires root.Holds(p, s) && s.Fork? && s.node == victim && s.left.Fork? && s.right.Fork?
    modifies root, root.all
    ensures root.all == old(root.all)
    ensures s.right == Plug(spine, sub) && sub.Fork? && sub.left.Leaf? && Before(spine) == [] && sub.red == red
    ensures root.Holds(p, Fork(s.left, sub.node, s.red, Plug(spine, sub.right)))
    ensures child == RootOf(sub.right) && parent == (if spine.Top? then sub.node else spine.node)
  {
    var y, detached;
    y, child, parent, red, detached, spine, sub := PullSuccessor(victim, root, p, s);
    ghost var m := View(root.all);
    SuccessorDistinct(s, spine, sub);
    hide Chain, Linked, Distinct, DistinctPath, Nodes, PathNodes, Before, Plug, At;
    Adopt(root, victim, y, detached);
    PulledAdopted(m, View(root.all), root.node, p, s, spine, sub);
  }

  lemma SpliceNodes<T>(p: Path<T>, t: Tree<T>)
    requires t.Fork? && (t.left.Leaf? || t.right.Leaf?) && Distinct(t) && PathNodes(p) !! Nodes(t)
    ensures Nodes(Plug(p, OnlyChild(t))) == Nodes(Plug(p, t)) - {t.node}
  {
    PlugNodes(p, t);
    PlugNodes(p, OnlyChild(t));
  }

  lemma SuccessorNodes<T>(spine: Path<T>, sub: Tree<T>, p: Path<T>, s: Tree<T>)
    requires s.Fork? && s.left.Fork? && s.right == Plug(spine, sub) && Distinct(s) && sub.Fork? && sub.left.Leaf?
    requires PathNodes(p) !! Nodes(s)
    ensures Nodes(Plug(p, Fork(s.left, sub.node, s.red, Plug(spine, sub.right)))) == Nodes(Plug(p, s)) - {s.node}
  {
    var t := Fork(s.left, sub.node, s.red, Plug(spine, sub.right));
    SuccessorDistinct(s, spine, sub);
    assert s.node in Nodes(s);
    PlugNodes(p, s);
    PlugNodes(p, t);
  }

  /** The first half: `n` has at most one child. */
  method EraseOne<K, V>(n: Node<K, V>, root: Root<K, V>, ghost p: Path<Node<K, V>>, ghost s: Tree<Node<K, V>>)
    returns (ghost w: Tree<Node<K, V>>, ghost k: nat)
    requires root.Holds(p, s) && RedBlack(Plug(p, s)) && s.Fork? && s.node == n && (s.left.Leaf? || s.right.Leaf?)
    modifies root, root.all
    ensures root.all == old(root.all) && root.Holds(Top, w) && RedBlack(w)
    ensures RemovedAt(Inorder(Plug(p, s)), Inorder(w), k, n) && Nodes(w) == Nodes(Plug(p, s)) - {n}
  {
    PathCells(View(root.all), root.node, p, s);
    ghost var h := SpliceColours(p, s);
    k := SpliceInorder(p, s);
    SpliceNodes(p, s);
    hide At, RedBlack, BlackMissing, Inorder, Nodes, Plug, RemovedAt;
    var child := if n.left == null then n.right else n.left;
    var parent := n.parent;
    var red := n.red;
    SpliceOut(n, child, root, p, s);
    w := Plug(p, OnlyChild(s));
    if red {
      Zip(View(root.all), root.node, p, OnlyChild(s));
    } else {
      w := EraseColor(child, parent, root, p, OnlyChild(s), h);
    }
  }

  /** The second half: the successor takes over. */
  method EraseTwo<K, V>(n: Node<K, V>, root: Root<K, V>, ghost p: Path<Node<K, V>>, ghost s: Tree<Node<K, V>>)
    returns (ghost w: Tree<Node<K, V>>, ghost k: nat)
    requires root.Holds(p, s) && RedBlack(Plug(p, s)) && s.Fork? && s.node == n && s.left.Fork? && s.right.Fork?
    modifies root, root.all
    ensures root.all == old(root.all) && root.Holds(Top, w) && RedBlack(w)
    ensures RemovedAt(Inorder(Plug(p, s)), Inorder(w), k, n) && Nodes(w) == Nodes(Plug(p, s)) - {n}
  {
    assert Distinct(s) && PathNodes(p) !! Nodes(s);
    var child, parent, red;
    ghost var spine, sub;
    child, parent, red, spine, sub := PutSuccessor(n, root, p, s);
    ghost var q := Append(spine, Step(p, false, sub.node, s.red, s.left));
    SuccessorColours(spine, sub, p, s);
    ghost var h := SpliceColours(q, sub);
    k := SuccessorInorder(spine, sub, p, s);
    SuccessorNodes(spine, sub, p, s);
    hide At, RedBlack, BlackMissing, Inorder, Nodes, Plug, RemovedAt, Before;
    Move(View(root.all), root.node, p, Fork(s.left, sub.node, s.red, Plug(spine, sub.right)), q, sub.right);
    w := Plug(q, sub.right);
    if red {
      Zip(View(root.all), root.node, q, sub.right);
    } else {
      w := EraseColor(child, parent, root, q, sub.right, h);
    }
  }

  /** The operation is over: `w` is the tree, and its nodes are the root's. */
  ghost method Settle<K, V>(root: Root<K, V>, w: Tree<Node<K, V>>)
    requires root.Holds(Top, w) && RedBlack(w) && Nodes(w) <= root.all
    modifies root`tree, root`all
    ensures root.Valid() && root.tree == w && root.all == Nodes(w)
  {
    var m := View(root.all);
    root.tree := w;
    root.all := Nodes(w);
    LinkedFrame(m, View(root.all), w, null);
  }

  /** cceph_rb_erase: `n` leaves the tree, the other nodes keep their order. */
  method Erase<K, V>(n: Node<K, V>, root: Root<K, V>) returns (ghost k: nat)
    requires root.Valid() && n in root.all
    modifies root, root.all
    ensures root.Valid() && root.all == old(root.all) - {n}
    ensures RemovedAt(old(Inorder(root.tree)), Inorder(root.tree), k, n)
  {
    ghost var p, s := Locate(Top, root.tree, n);
    Move(View(root.all), root.node, Top, root.tree, p, s);
    PathCells(View(root.all), root.node, p, s);
    hide At, RedBlack, Nodes, Inorder, Plug, RemovedAt;
    ghost var w;
    if n.left == null || n.right == null {
      w, k := EraseOne(n, root, p, s);
    } else {
      w, k := EraseTwo(n, root, p, s);
    }
    Settle(root, w);
  }
}
