/** cceph_rb_first, cceph_rb_last, cceph_rb_next and cceph_rb_prev of common/rbtree.c, and the
    walks that are made of them. */
module RbWalk {
  import opened RbShape
  import opened RbLinks
  import opened RbTree
  import opened RbErase
  import opened RbMap

  /** The element after `x` in `s`, or null at the end; `x` occurs once. */
  ghost predicate IsNext<K, V>(s: seq<Node<K, V>>, x: Node<K, V>, r: Node?<K, V>) {
    forall i :: 0 <= i < |s| && s[i] == x ==> r == if i + 1 < |s| then s[i + 1] else null
  }

  ghost predicate IsPrev<K, V>(s: seq<Node<K, V>>, x: Node<K, V>, r: Node?<K, V>) {
    forall i :: 0 <= i < |s| && s[i] == x ==> r == if 0 < i then s[i - 1] else null
  }

  lemma NextAt<K, V>(s: seq<Node<K, V>>, i: nat, x: Node<K, V>, r: Node?<K, V>)
    requires i < |s| && s[i] == x && IsNext(s, x, r)
    ensures r == if i + 1 < |s| then s[i + 1] else null
  {}

  /** Going on and coming back ends where it began. */
  lemma PrevUndoesNext<K, V>(s: seq<Node<K, V>>, x: Node<K, V>, r: Node<K, V>, back: Node?<K, V>)
    requires NoDuplicates(s) && x in s && IsNext(s, x, r) && IsPrev(s, r, back)
    ensures back == x
  {
    var i :| 0 <= i < |s| && s[i] == x;
    NextAt(s, i, x, r);
    assert i + 1 < |s|;
  }

  lemma NextFrom<K, V>(t: Tree<Node<K, V>>, a: seq<Node<K, V>>, x: Node<K, V>, b: seq<Node<K, V>>)
    requires Distinct(t) && Inorder(t) == a + [x] + b
    ensures IsNext(Inorder(t), x, if b == [] then null else b[0])
    ensures IsPrev(Inorder(t), x, if a == [] then null else a[|a| - 1])
  {
    InorderDistinct(t);
    var s := Inorder(t);
    forall i | 0 <= i < |s| && s[i] == x ensures i == |a| {
      assert s[|a|] == x;
    }
  }

  /** Down the right links: the last node in order of the tree `r`. */
  method Rightmost<K, V>(n: Node<K, V>, root: Root<K, V>, ghost r: Tree<Node<K, V>>, ghost above: Node?<K, V>)
    returns (y: Node<K, V>, ghost spine: Path<Node<K, V>>, ghost sub: Tree<Node<K, V>>)
    requires Linked(View(root.all), r, above) && n == RootOf(r)
    ensures Plug(spine, sub) == r && sub.Fork? && sub.node == y && sub.right.Leaf? && After(spine) == []
  {
    y, spine, sub := n, Top, r;
    while y.right != null
      invariant Plug(spine, sub) == r && sub.Fork? && sub.node == y && y in root.all && After(spine) == []
      invariant Linked(View(root.all), sub, UpNode(spine, above))
      decreases sub
    {
      assert Linked(View(root.all), sub.right, y);
      y, spine, sub := y.right, Step(spine, false, y, sub.red, sub.left), sub.right;
    }
  }

  lemma MaxInorder<T>(spine: Path<T>, sub: Tree<T>)
    requires sub.Fork? && sub.right.Leaf? && After(spine) == []
    ensures Inorder(Plug(spine, sub)) == Before(spine) + Inorder(sub.left) + [sub.node]
  {
    PlugInorder(spine, sub);
    assert Inorder(sub) == Inorder(sub.left) + [sub.node];
  }

  method First<K, V>(root: Root<K, V>) returns (n: Node?<K, V>)
    requires root.Valid()
    ensures n == if Inorder(root.tree) == [] then null else Inorder(root.tree)[0]
  {
    n := root.node;
    if n == null {
      return;
    }
    ghost var spine, sub;
    n, spine, sub := Leftmost(n, root, root.tree, null);
    MinInorder(spine, sub);
  }

  method Last<K, V>(root: Root<K, V>) returns (n: Node?<K, V>)
    requires root.Valid()
    ensures n == if Inorder(root.tree) == [] then null else Inorder(root.tree)[|Inorder(root.tree)| - 1]
  {
    n := root.node;
    if n == null {
      return;
    }
    ghost var spine, sub;
    n, spine, sub := Rightmost(n, root, root.tree, null);
    MaxInorder(spine, sub);
  }

  /** A node's neighbours in order, read off its place in the tree. */
  lemma AroundNode<K, V>(w: Tree<Node<K, V>>, p: Path<Node<K, V>>, t: Tree<Node<K, V>>)
    requires Plug(p, t) == w && t.Fork? && Distinct(w)
    ensures var a, b := Before(p) + Inorder(t.left), Inorder(t.right) + After(p);
      && IsNext(Inorder(w), t.node, if b == [] then null else b[0])
      && IsPrev(Inorder(w), t.node, if a == [] then null else a[|a| - 1])
  {
    var a, b := Before(p) + Inorder(t.left), Inorder(t.right) + After(p);
    InorderAt(p, t);
    hide Inorder, Before, After, Plug;
    NextFrom(w, a, t.node, b);
  }

  lemma UpCells<K, V>(m: Snapshot<K, V>, rootNode: Node?<K, V>, p: Path<Node<K, V>>, t: Tree<Node<K, V>>)
    requires At(m, rootNode, p, t) && t.Fork?
    ensures t.node in m && m[t.node].parent == UpNode(p, null)
    ensures p.Step? ==> p.node in m
    ensures p.Step? ==> (t.node == m[p.node].right <==> !p.wentLeft) && (t.node == m[p.node].left <==> p.wentLeft)
  {}

  lemma OneUp<K, V>(m: Snapshot<K, V>, rootNode: Node?<K, V>, p: Path<Node<K, V>>, t: Tree<Node<K, V>>)
    requires At(m, rootNode, p, t) && p.Step?
    ensures At(m, rootNode, p.up, Join(p.wentLeft, t, p.node, p.red, p.sibling))
  {
    Move(m, rootNode, p, t, p.up, Join(p.wentLeft, t, p.node, p.red, p.sibling));
  }

  /** Up while coming from the right. */
  method UpFromRight<K, V>(n0: Node<K, V>, root: Root<K, V>, ghost p0: Path<Node<K, V>>, ghost t0: Tree<Node<K, V>>)
    returns (parent: Node?<K, V>)
    requires root.Holds(p0, t0) && n0 == RootOf(t0)
    ensures parent == if After(p0) == [] then null else After(p0)[0]
  {
    var n := n0;
    ghost var p, t := p0, t0;
    UpCells(View(root.all), root.node, p, t);
    parent := n.parent;
    while parent != null && n == parent.right
      invariant root.Holds(p, t) && n == RootOf(t) && n in root.all && parent == UpNode(p, null)
      invariant p.Step? ==> p.node in root.all && (n == p.node.right <==> !p.wentLeft)
      invariant After(p) == After(p0)
      decreases p
    {
      hide At, Plug;
      ghost var up := Join(p.wentLeft, t, p.node, p.red, p.sibling);
      OneUp(View(root.all), root.node, p, t);
      t, p, n := up, p.up, parent;
      UpCells(View(root.all), root.node, p, t);
      parent := n.parent;
    }
  }

  /** Up while coming from the left. */
  method UpFromLeft<K, V>(n0: Node<K, V>, root: Root<K, V>, ghost p0: Path<Node<K, V>>, ghost t0: Tree<Node<K, V>>)
    returns (parent: Node?<K, V>)
    requires root.Holds(p0, t0) && n0 == RootOf(t0)
    ensures parent == if Before(p0) == [] then null else Before(p0)[|Before(p0)| - 1]
  {
    var n := n0;
    ghost var p, t := p0, t0;
    UpCells(View(root.all), root.node, p, t);
    parent := n.parent;
    while parent != null && n == parent.left
      invariant root.Holds(p, t) && n == RootOf(t) && n in root.all && parent == UpNode(p, null)
      invariant p.Step? ==> p.node in root.all && (n == p.node.left <==> p.wentLeft)
      invariant Before(p) == Before(p0)
      decreases p
    {
      hide At, Plug;
      ghost var up := Join(p.wentLeft, t, p.node, p.red, p.sibling);
      OneUp(View(root.all), root.node, p, t);
      t, p, n := up, p.up, parent;
      UpCells(View(root.all), root.node, p, t);
      parent := n.parent;
    }
  }

  /** cceph_rb_next. A cleared node, its own parent, has no successor. */
  method Next<K, V>(n: Node<K, V>, root: Root<K, V>) returns (r: Node?<K, V>)
    requires n.parent == n || (root.Valid() && n in root.all)
    ensures n.parent == n ==> r == null
    ensures n.parent != n ==> IsNext(Inorder(root.tree), n, r)
  {
    if n.parent == n {
      return null;
    }
    ghost var p, t := Locate(Top, root.tree, n);
    Move(View(root.all), root.node, Top, root.tree, p, t);
    PathCells(View(root.all), root.node, p, t);
    AroundNode(root.tree, p, t);
    if n.right != null {
      ghost var spine, sub;
      assert Linked(View(root.all), t.right, n);
      r, spine, sub := Leftmost(n.right, root, t.right, n);
      MinInorder(spine, sub);
    } else {
      r := UpFromRight(n, root, p, t);
    }
  }

  /** cceph_rb_prev */
  method Prev<K, V>(n: Node<K, V>, root: Root<K, V>) returns (r: Node?<K, V>)
    requires n.parent == n || (root.Valid() && n in root.all)
    ensures n.parent == n ==> r == null
    ensures n.parent != n ==> IsPrev(Inorder(root.tree), n, r)
  {
    if n.parent == n {
      return null;
    }
    ghost var p, t := Locate(Top, root.tree, n);
    Move(View(root.all), root.node, Top, root.tree, p, t);
    PathCells(View(root.all), root.node, p, t);
    AroundNode(root.tree, p, t);
    if n.left != null {
      ghost var spine, sub;
      assert Linked(View(root.all), t.left, n);
      r, spine, sub := Rightmost(n.left, root, t.left, n);
      MaxInorder(spine, sub);
    } else {
      r := UpFromLeft(n, root, p, t);
    }
  }

  /** No node of a tree is its own parent, so next never takes the way out for cleared nodes. */
  lemma NotCleared<K, V>(root: Root<K, V>, n: Node<K, V>)
    requires root.Valid() && n in Inorder(root.tree)
    ensures n in root.all && n.parent != n
  {
    InorderNode(root.tree, n);
    var p, t := Locate(Top, root.tree, n);
    Move(View(root.all), root.node, Top, root.tree, p, t);
    PathCells(View(root.all), root.node, p, t);
  }

  /** The counting pass of cceph_mem_store_list_coll. */
  method CountNodes<K, V>(root: Root<K, V>) returns (count: nat)
    requires root.Valid()
    ensures count == |Inorder(root.tree)|
  {
    hide Distinct, RedBlack, Nodes;
    ghost var s := Inorder(root.tree);
    count := 0;
    var n := First(root);
    while n != null
      invariant 0 <= count <= |s| && n == (if count < |s| then s[count] else null)
      decreases |s| - count
    {
      assert s[count] in s;
      NotCleared(root, n);
      count := count + 1;
      var next := Next(n, root);
      NextAt(s, count - 1, n, next);
      n := next;
    }
  }

  /** Its filling pass. */
  method FillKeys<K, V>(root: Root<K, V>, keys: array<K>)
    requires root.Valid() && keys.Length == |Inorder(root.tree)|
    modifies keys
    ensures forall i :: 0 <= i < keys.Length ==> keys[i] == Inorder(root.tree)[i].key
  {
    hide Distinct, RedBlack, Nodes;
    ghost var s := Inorder(root.tree);
    var i := 0;
    var n := First(root);
    while n != null
      invariant 0 <= i <= |s| && n == (if i < |s| then s[i] else null)
      invariant forall j :: 0 <= j < i ==> keys[j] == s[j].key
      decreases |s| - i
    {
      assert s[i] in s;
      NotCleared(root, n);
      keys[i] := n.key;
      i := i + 1;
      var next := Next(n, root);
      NextAt(s, i - 1, n, next);
      n := next;
    }
  }

  /** The two passes of cceph_mem_store_list_coll over a tree of collections agree on the number
      of keys, and the keys come out in ascending order, each once. */
  method ListKeys<K(0), V>(root: Root<K, V>, ghost cmp: (K, K) -> int) returns (keys: array<K>)
    requires Ordered(root, cmp)
    ensures fresh(keys)
    ensures forall i, j :: 0 <= i < j < keys.Length ==> cmp(keys[i], keys[j]) < 0
    ensures forall n :: n in root.all ==> n.key in keys[..]
    ensures forall i :: 0 <= i < keys.Length ==> exists n :: n in root.all && n.key == keys[i]
  {
    var count := CountNodes(root);
    keys := new K[count];
    FillKeys(root, keys);
    ghost var s := Inorder(root.tree);
    forall n | n in root.all ensures n.key in keys[..] {
      InorderNode(root.tree, n);
      var j :| 0 <= j < |s| && s[j] == n;
      assert keys[..][j] == n.key;
    }
    forall i | 0 <= i < keys.Length ensures exists n :: n in root.all && n.key == keys[i] {
      InorderNode(root.tree, s[i]);
      assert s[i] in root.all;
    }
  }
}
