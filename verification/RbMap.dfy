/**
 The ordered maps that CCEPH_IMPL_MAP of common/rbtree.h makes out of the tree, for any key
 type and any comparison that is a total order, and the walks of common/rbtree.c along them.
 */
module RbMap {
  import opened RbShape
  import opened RbLinks
  import opened RbFixups
  import opened RbTree
  import opened RbErase
  import opened RbOrder
  import opened Errno

  ghost predicate Sorted<K, V>(cmp: (K, K) -> int, s: seq<Node<K, V>>) {
    forall i, j :: 0 <= i < j < |s| ==> cmp(s[i].key, s[j].key) < 0
  }

  /** A search tree for `cmp`. */
  ghost predicate Ordered<K, V>(root: Root<K, V>, cmp: (K, K) -> int)
    reads root, root.all
  {
    root.Valid() && Sorted(cmp, Inorder(root.tree))
  }

  /** All keys of `a` are smaller than `key`, and all keys of `b` are greater. */
  ghost predicate Around<K, V>(cmp: (K, K) -> int, a: seq<Node<K, V>>, key: K, b: seq<Node<K, V>>) {
    (forall x :: x in a ==> cmp(x.key, key) < 0) && (forall x :: x in b ==> cmp(key, x.key) < 0)
  }

  lemma SortedSplit<K, V>(cmp: (K, K) -> int, a: seq<Node<K, V>>, n: Node<K, V>, b: seq<Node<K, V>>)
    ensures Sorted(cmp, a + [n] + b) ==> Around(cmp, a, n.key, b)
  {
    var s := a + [n] + b;
    if Sorted(cmp, s) {
      forall x | x in a ensures cmp(x.key, n.key) < 0 {
        var i :| 0 <= i < |a| && a[i] == x;
        assert s[i] == x && s[|a|] == n;
      }
      forall x | x in b ensures cmp(n.key, x.key) < 0 {
        var i :| 0 <= i < |b| && b[i] == x;
        assert s[|a| + 1 + i] == x && s[|a|] == n;
      }
    }
  }

  lemma SortedInsert<K(!new), V>(cmp: (K, K) -> int, a: seq<Node<K, V>>, n: Node<K, V>, b: seq<Node<K, V>>)
    requires TotalOrder(cmp) && Sorted(cmp, a + b) && Around(cmp, a, n.key, b)
    ensures Sorted(cmp, a + [n] + b)
  {
    var s, t := a + [n] + b, a + b;
    forall i, j | 0 <= i < j < |s| ensures cmp(s[i].key, s[j].key) < 0 {
      if i == |a| {
        assert s[j] == b[j - |a| - 1] && s[j] in b;
      } else if j == |a| {
        assert s[i] == a[i] && s[i] in a;
      } else {
        assert s[i] == t[if i < |a| then i else i - 1] && s[j] == t[if j < |a| then j else j - 1];
      }
    }
  }

  lemma SortedRemove<K, V>(cmp: (K, K) -> int, s: seq<Node<K, V>>, s': seq<Node<K, V>>, k: nat, n: Node<K, V>)
    requires Sorted(cmp, s) && RemovedAt(s, s', k, n)
    ensures Sorted(cmp, s')
  {}

  /** One step down towards `key`: everything passed by is on the right side of it. */
  lemma Descend<K(!new), V>(cmp: (K, K) -> int, p: Path<Node<K, V>>, t: Tree<Node<K, V>>, key: K)
    requires TotalOrder(cmp) && t.Fork? && Sorted(cmp, Inorder(Plug(p, t))) && Around(cmp, Before(p), key, After(p))
    ensures cmp(key, t.node.key) < 0 ==> Around(cmp, Before(p), key, [t.node] + Inorder(t.right) + After(p))
    ensures cmp(key, t.node.key) > 0 ==> Around(cmp, Before(p) + Inorder(t.left) + [t.node], key, After(p))
  {
    var a, b := Before(p) + Inorder(t.left), Inorder(t.right) + After(p);
    InorderAt(p, t);
    SortedSplit(cmp, a, t.node, b);
    hide Inorder, Before, After, Plug, Sorted;
    if cmp(key, t.node.key) < 0 {
      AroundRight(cmp, t.node, Inorder(t.right), After(p), key);
    } else if cmp(key, t.node.key) > 0 {
      AroundLeft(cmp, Before(p), Inorder(t.left), t.node, key);
    }
  }

  lemma AroundRight<K(!new), V>(cmp: (K, K) -> int, n: Node<K, V>, a: seq<Node<K, V>>, b: seq<Node<K, V>>, key: K)
    requires TotalOrder(cmp) && cmp(key, n.key) < 0 && Around(cmp, [], n.key, a + b)
    ensures Around(cmp, [], key, [n] + a + b)
  {}

  lemma AroundLeft<K(!new), V>(cmp: (K, K) -> int, a: seq<Node<K, V>>, b: seq<Node<K, V>>, n: Node<K, V>, key: K)
    requires TotalOrder(cmp) && cmp(key, n.key) > 0 && Around(cmp, a + b, n.key, [])
    ensures Around(cmp, a + b + [n], key, [])
  {}

  /** CCEPH_IMPL_MAP search: finds the node of the key if there is one, in at most as many
      steps as the tree is high. */
  method Search<K(!new), V>(root: Root<K, V>, key: K, cmp: (K, K) -> int) returns (ret: int, r: Node?<K, V>, ghost steps: nat)
    requires TotalOrder(cmp) && Ordered(root, cmp)
    ensures ret == if r != null then OK else ERR_MAP_NODE_NOT_EXIST
    ensures r != null ==> r in root.all && r.key == key
    ensures r == null ==> forall x :: x in root.all ==> x.key != key
    ensures steps <= Height(root.tree)
  {
    var node := root.node;
    ghost var p: Path<Node<K, V>>, t := Top, root.tree;
    steps := 0;
    while node != null
      invariant Plug(p, t) == root.tree && node == RootOf(t) && Linked(View(root.all), t, UpNode(p, null))
      invariant Around(cmp, Before(p), key, After(p)) && steps + Height(t) <= Height(root.tree)
      decreases t
    {
      Descend(cmp, p, t, key);
      steps := steps + 1;
      var c := cmp(key, node.key);
      if c < 0 {
        node, p, t := node.left, Step(p, true, t.node, t.red, t.right), t.left;
      } else if c > 0 {
        node, p, t := node.right, Step(p, false, t.node, t.red, t.left), t.right;
      } else {
        PlugNodes(p, t);
        return OK, node, steps;
      }
    }
    PlugInorder(p, Leaf);
    InorderNodes(root.tree);
    return ERR_MAP_NODE_NOT_EXIST, null, steps;
  }

  /** A search looks at no more nodes than twice the binary logarithm of their number plus one. */
  lemma SearchCost<K, V>(root: Root<K, V>, steps: nat)
    requires root.Valid() && steps <= Height(root.tree)
    ensures Pow2(steps) <= (|root.all| + 1) * (|root.all| + 1)
  {
    StepsBound(root.tree, steps);
  }

  /** cceph_rb_link_node: the new red node becomes a leaf at the hole. */
  method LinkNode<K, V>(root: Root<K, V>, n: Node<K, V>, parent: Node?<K, V>, onLeft: bool, ghost p: Path<Node<K, V>>)
    requires root.Holds(p, Leaf) && n !in root.all && parent == UpNode(p, null) && (p.Step? ==> p.wentLeft == onLeft)
    modifies root, root.all, n
    ensures root.all == old(root.all) + {n} && root.tree == old(root.tree)
    ensures root.Holds(p, Fork(Leaf, n, true, Leaf))
  {
    ghost var m := View(root.all);
    PathInView(m, root.node, p);
    StoreLink(root, n, parent, onLeft, p);
    root.all := root.all + {n};
    LinkAt(m, View(root.all), old(root.node), root.node, p, n);
  }

  method StoreLink<K, V>(root: Root<K, V>, n: Node<K, V>, parent: Node?<K, V>, onLeft: bool, ghost p: Path<Node<K, V>>)
    requires n !in root.all && parent == UpNode(p, null) && (p.Step? ==> p.wentLeft == onLeft && p.node in root.all)
    modifies root`node, root.all, n
    ensures var m, m' := old(View(root.all)), View(root.all + {n});
      && m'[n] == Cell(null, null, parent, true)
      && Relinked(m, m', old(root.node), root.node, p, n)
      && SameOn(m, m', root.all - (if p.Step? then {p.node} else {}))
  {
    n.parent := parent;
    n.red := true;
    n.left, n.right := null, null;
    if parent == null {
      root.node := n;
    } else if onLeft {
      parent.left := n;
    } else {
      parent.right := n;
    }
  }

  lemma {:induction false} PathInView<K, V>(m: Snapshot<K, V>, rootNode: Node?<K, V>, p: Path<Node<K, V>>)
    requires At(m, rootNode, p, Leaf)
    ensures PathNodes(p) <= m.Keys
  {
    ChainKeys(m, p, null, rootNode);
  }

  lemma {:induction false} LinkedKeys<K, V>(m: Snapshot<K, V>, t: Tree<Node<K, V>>, parent: Node?<K, V>)
    requires Linked(m, t, parent)
    ensures Nodes(t) <= m.Keys
  {
    match t
    case Leaf =>
    case Fork(l, n, _, r) => LinkedKeys(m, l, n); LinkedKeys(m, r, n);
  }

  lemma {:induction false} ChainKeys<K, V>(m: Snapshot<K, V>, p: Path<Node<K, V>>, hole: Node?<K, V>, rootNode: Node?<K, V>)
    requires Chain(m, p, hole, rootNode, null)
    ensures PathNodes(p) <= m.Keys
  {
    match p
    case Top =>
    case Step(up, _, n, _, s) => LinkedKeys(m, s, n); ChainKeys(m, up, n, rootNode);
  }

  lemma LinkAt<K, V>(m: Snapshot<K, V>, m': Snapshot<K, V>, rootNode: Node?<K, V>, rootNode': Node?<K, V>, p: Path<Node<K, V>>, n: Node<K, V>)
    requires At(m, rootNode, p, Leaf) && n !in m && n in m' && m'[n] == Cell(null, null, UpNode(p, null), true)
    requires Relinked(m, m', rootNode, rootNode', p, n) && SameOn(m, m', m.Keys - (if p.Step? then {p.node} else {}))
    ensures At(m', rootNode', p, Fork(Leaf, n, true, Leaf))
  {
    PathInView(m, rootNode, p);
    ChainRelink(m, m', rootNode, rootNode', p, null, n);
  }

  /** The way down to the place of a new key. */
  method FindSlot<K(!new), V>(root: Root<K, V>, key: K, cmp: (K, K) -> int)
    returns (found: bool, parent: Node?<K, V>, onLeft: bool, ghost p: Path<Node<K, V>>)
    requires TotalOrder(cmp) && Ordered(root, cmp)
    ensures found <==> exists x :: x in root.all && x.key == key
    ensures !found ==> Plug(p, Leaf) == root.tree && parent == UpNode(p, null) && (p.Step? ==> p.wentLeft == onLeft)
    ensures !found ==> Around(cmp, Before(p), key, After(p))
  {
    var node := root.node;
    parent, onLeft := null, false;
    ghost var t := root.tree;
    p := Top;
    while node != null
      invariant Plug(p, t) == root.tree && node == RootOf(t) && Linked(View(root.all), t, UpNode(p, null))
      invariant parent == UpNode(p, null) && (p.Step? ==> p.wentLeft == onLeft)
      invariant Around(cmp, Before(p), key, After(p))
      decreases t
    {
      Descend(cmp, p, t, key);
      var c := cmp(key, node.key);
      parent := node;
      if c < 0 {
        node, onLeft, p, t := node.left, true, Step(p, true, t.node, t.red, t.right), t.left;
      } else if c > 0 {
        node, onLeft, p, t := node.right, false, Step(p, false, t.node, t.red, t.left), t.right;
      } else {
        PlugNodes(p, t);
        return true, parent, onLeft, p;
      }
    }
    PlugInorder(p, Leaf);
    InorderNodes(root.tree);
    found := false;
  }

  /** CCEPH_IMPL_MAP insert: a key that is there already is refused and nothing changes,
      otherwise exactly the new node comes in. */
  method Insert<K(!new), V>(root: Root<K, V>, n: Node<K, V>, cmp: (K, K) -> int) returns (ret: int)
    requires TotalOrder(cmp) && Ordered(root, cmp) && n !in root.all
    modifies root, root.all, n
    ensures Ordered(root, cmp)
    ensures ret == if exists x :: x in old(root.all) && x.key == n.key then ERR_MAP_NODE_ALREADY_EXIST else OK
    ensures ret == OK ==> root.all == old(root.all) + {n}
    ensures ret != OK ==> root.all == old(root.all) && root.tree == old(root.tree) && root.node == old(root.node)
    ensures ret != OK ==> View(root.all) == old(View(root.all)) && unchanged(n)
  {
    var found, parent, onLeft;
    ghost var p;
    found, parent, onLeft, p := FindSlot(root, n.key, cmp);
    if found {
      return ERR_MAP_NODE_ALREADY_EXIST;
    }
    PlaceLeaf(root, n, parent, onLeft, p);
    SortedInsert(cmp, Before(p), n, After(p));
    ret := OK;
  }

  /** Links `n` at the hole and rebalances. */
  method PlaceLeaf<K, V>(root: Root<K, V>, n: Node<K, V>, parent: Node?<K, V>, onLeft: bool, ghost p: Path<Node<K, V>>)
    requires root.Valid() && n !in root.all && Plug(p, Leaf) == root.tree
    requires parent == UpNode(p, null) && (p.Step? ==> p.wentLeft == onLeft)
    modifies root, root.all, n
    ensures root.Valid() && root.all == old(root.all) + {n}
    ensures old(Inorder(root.tree)) == Before(p) + After(p) && Inorder(root.tree) == Before(p) + [n] + After(p)
  {
    ghost var t := Fork(Leaf, n, true, Leaf);
    Zip(View(root.all), root.node, p, Leaf);
    ghost var h := UnplugRb(p, Leaf);
    PlaceLeafNodes(p, n);
    LinkNode(root, n, parent, onLeft, p);
    assert RedFault(p, t, h);
    hide At, RedBlack, Ctx, Rb, Plug, Before, After, RedFault, Inorder, Nodes;
    ghost var w := root.InsertColor(n, p, t, h);
    Settle(root, w);
  }

  lemma PlaceLeafNodes<T>(p: Path<T>, n: T)
    ensures Inorder(Plug(p, Leaf)) == Before(p) + After(p)
    ensures Inorder(Plug(p, Fork(Leaf, n, true, Leaf))) == Before(p) + [n] + After(p)
    ensures Nodes(Plug(p, Fork(Leaf, n, true, Leaf))) == Nodes(Plug(p, Leaf)) + {n}
  {
    PlugNodes(p, Leaf);
    PlugNodes(p, Fork(Leaf, n, true, Leaf));
    PlugInorder(p, Leaf);
    PlugInorder(p, Fork(Leaf, n, true, Leaf));
  }

  /** CCEPH_IMPL_MAP remove */
  method Remove<K(!new), V>(root: Root<K, V>, n: Node<K, V>, ghost cmp: (K, K) -> int) returns (ret: int, ghost k: nat)
    requires Ordered(root, cmp) && n in root.all
    modifies root, root.all
    ensures Ordered(root, cmp) && root.all == old(root.all) - {n} && ret == OK
    ensures RemovedAt(old(Inorder(root.tree)), Inorder(root.tree), k, n)
  {
    ghost var s := Inorder(root.tree);
    k := Erase(n, root);
    SortedRemove(cmp, s, Inorder(root.tree), k, n);
    ret := OK;
  }

  // ---- the contents as a map ----

  ghost predicate KeysDistinct<K, V>(ns: set<Node<K, V>>) {
    forall a, b :: a in ns && b in ns && a.key == b.key ==> a == b
  }

  ghost function Keys<K, V>(ns: set<Node<K, V>>): set<K> {
    set n | n in ns :: n.key
  }

  ghost function Holder<K, V>(ns: set<Node<K, V>>, k: K): Node<K, V>
    requires k in Keys(ns)
  {
    var n :| n in ns && n.key == k;
    n
  }

  /** The map that a tree with these nodes stands for. */
  ghost function Model<K, V>(ns: set<Node<K, V>>): (m: map<K, V>)
    requires KeysDistinct(ns)
    ensures forall n :: n in ns ==> n.key in m && m[n.key] == n.value
    ensures forall k :: k in m ==> exists n :: n in ns && n.key == k
  {
    map k | k in Keys(ns) :: Holder(ns, k).value
  }

  lemma OrderedKeys<K(!new), V>(root: Root<K, V>, cmp: (K, K) -> int)
    requires TotalOrder(cmp) && Ordered(root, cmp)
    ensures KeysDistinct(root.all)
  {
    var s := Inorder(root.tree);
    forall a, b | a in root.all && b in root.all && a.key == b.key ensures a == b {
      InorderNode(root.tree, a);
      InorderNode(root.tree, b);
      var i :| 0 <= i < |s| && s[i] == a;
      var j :| 0 <= j < |s| && s[j] == b;
      assert cmp(a.key, b.key) == 0;
    }
  }

  lemma ModelInsert<K, V>(ns: set<Node<K, V>>, n: Node<K, V>)
    requires KeysDistinct(ns) && forall x :: x in ns ==> x.key != n.key
    ensures KeysDistinct(ns + {n}) && Model(ns + {n}) == Model(ns)[n.key := n.value]
  {}

  lemma ModelRemove<K, V>(ns: set<Node<K, V>>, n: Node<K, V>)
    requires KeysDistinct(ns) && n in ns
    ensures KeysDistinct(ns - {n}) && Model(ns - {n}) == Model(ns) - {n.key}
  {}
}
