/**
 What it means for the pointers and colours that a root is valid, in terms of the nodes alone:
 parent links match child links, no red node has a red child, and every way down from the root to
 a missing child meets the same number of black nodes.
 */
module RbValid {
  import opened Options
  import opened RbShape
  import opened RbLinks
  import opened RbTree
  import opened RbErase

  /** What the fields of a node of the tree say about its neighbours. */
  ghost predicate NodeOk<K, V>(root: Root<K, V>, n: Node<K, V>)
    reads root, root.all, n, n.left, n.right, n.parent
  {
    && (n.left != null ==> n.left in root.all && n.left.parent == n && n.left != n && (n.red ==> !n.left.red))
    && (n.right != null ==> n.right in root.all && n.right.parent == n && n.right != n && (n.red ==> !n.right.red))
    && (n.left != null ==> n.left != n.right)
    && (n.parent == null <==> n == root.node)
    && (n.parent != null ==> n.parent in root.all && (n.parent.left == n || n.parent.right == n))
  }

  lemma ValidNodes<K, V>(root: Root<K, V>, n: Node<K, V>)
    requires root.Valid() && n in root.all
    ensures NodeOk(root, n)
    ensures root.node != null && root.node in root.all && !root.node.red
  {
    var m := View(root.all);
    var p, t := Locate(Top, root.tree, n);
    Move(m, root.node, Top, root.tree, p, t);
    PathCells(m, root.node, p, t);
    var h := UnplugRb(p, t);
    assert Linked(m, t.left, n) && Linked(m, t.right, n);
    NodesIn(p, t);
    if p.Top? {
      assert n == root.node;
    } else {
      RootAbove(m, root.node, p, t);
    }
  }

  lemma NodesIn<T>(p: Path<T>, t: Tree<T>)
    requires Distinct(t) && t.Fork?
    ensures t.left.Fork? ==> t.left.node in Nodes(t.left) && t.left.node != t.node
    ensures t.right.Fork? ==> t.right.node in Nodes(t.right) && t.right.node != t.node
    ensures t.left.Fork? && t.right.Fork? ==> t.left.node != t.right.node
  {}

  lemma RootAbove<K, V>(m: Snapshot<K, V>, rootNode: Node?<K, V>, p: Path<Node<K, V>>, t: Tree<Node<K, V>>)
    requires At(m, rootNode, p, t) && p.Step? && t.Fork?
    ensures rootNode != t.node
  {
    Zip(m, rootNode, p, t);
    PlugFork(p, t);
    PlugDistinct(p, t);
    TopOfSpine(p, t);
  }

  /** Going left where `turns` says so: the black nodes met, if the way ends at a missing child. */
  ghost function BlacksOnWay<K, V>(m: Snapshot<K, V>, n: Node?<K, V>, turns: seq<bool>): Option<nat> {
    if n == null then (if turns == [] then Some(0) else None)
    else if turns == [] || n !in m then None
    else
      var below := BlacksOnWay(m, if turns[0] then m[n].left else m[n].right, turns[1..]);
      if below.None? then None else Some(below.value + if m[n].red then 0 else 1)
  }

  lemma {:induction false} WayBlacks<K, V>(m: Snapshot<K, V>, t: Tree<Node<K, V>>, parent: Node?<K, V>, h: nat, turns: seq<bool>)
    requires Linked(m, t, parent) && Rb(t, h) && BlacksOnWay(m, RootOf(t), turns).Some?
    ensures BlacksOnWay(m, RootOf(t), turns).value == h
  {
    if t.Fork? {
      WayBlacks(m, if turns[0] then t.left else t.right, t.node, if t.red then h else h - 1, turns[1..]);
    }
  }

  /** All ways from the root to a missing child meet as many black nodes. */
  lemma EqualBlacks<K, V>(root: Root<K, V>, a: seq<bool>, b: seq<bool>)
    requires root.Valid()
    requires BlacksOnWay(View(root.all), root.node, a).Some? && BlacksOnWay(View(root.all), root.node, b).Some?
    ensures BlacksOnWay(View(root.all), root.node, a) == BlacksOnWay(View(root.all), root.node, b)
  {
    var h: nat :| Rb(root.tree, h);
    WayBlacks(View(root.all), root.tree, null, h, a);
    WayBlacks(View(root.all), root.tree, null, h, b);
  }
}
