/**
 A tree as the finite map from the keys to the values of its nodes, for trees whose nodes are made
 for them and stay theirs. Two such trees have no node in common.
 */
module RbTreeMap {
  import opened RbShape
  import opened RbLinks
  import opened RbTree
  import opened RbOrder
  import opened RbMap
  import opened RbWalk
  import opened Errno

  ghost predicate MadeFor<K, V>(ns: set<Node<K, V>>, root: Root<K, V>) {
    forall n :: n in ns ==> n.home == root
  }

  /** All nodes were made for this tree. */
  ghost predicate AtHome<K, V>(root: Root<K, V>)
    reads root
  {
    MadeFor(root.all, root)
  }

  lemma HomesApart<K, V>(a: set<Node<K, V>>, x: Root<K, V>, b: set<Node<K, V>>, y: Root<K, V>)
    requires MadeFor(a, x) && MadeFor(b, y) && x != y
    ensures a !! b
  {}

  ghost predicate TreeIs<K(!new), V>(root: Root<K, V>, cmp: (K, K) -> int, m: map<K, V>)
    reads root, root.all
  {
    Ordered(root, cmp) && AtHome(root) && KeysDistinct(root.all) && Model(root.all) == m
  }

  method Lookup<K(!new), V>(root: Root<K, V>, key: K, cmp: (K, K) -> int, ghost m: map<K, V>) returns (ret: int, n: Node?<K, V>)
    requires TotalOrder(cmp) && TreeIs(root, cmp, m)
    ensures ret == if key in m then OK else ERR_MAP_NODE_NOT_EXIST
    ensures if key in m then n != null && n in root.all && n.key == key && n.value == m[key] else n == null
  {
    hide TotalOrder, Ordered;
    ghost var steps;
    ret, n, steps := Search(root, key, cmp);
  }

  /** A node with the key and the value comes in, unless the key is there already. */
  method Put<K(!new), V>(root: Root<K, V>, key: K, value: V, cmp: (K, K) -> int, ghost m: map<K, V>) returns (ret: int)
    requires TotalOrder(cmp) && TreeIs(root, cmp, m)
    modifies root, root.all
    ensures ret == if key in m then ERR_MAP_NODE_ALREADY_EXIST else OK
    ensures TreeIs(root, cmp, if key in m then m else m[key := value]) && fresh(root.all - old(root.all))
  {
    hide TotalOrder, Ordered;
    var n := new Node(key, value, root);
    if key !in m {
      ModelInsert(root.all, n);
    }
    ret := Insert(root, n, cmp);
  }

  method Drop<K(!new), V>(root: Root<K, V>, n: Node<K, V>, cmp: (K, K) -> int, ghost m: map<K, V>) returns (ret: int)
    requires TreeIs(root, cmp, m) && n in root.all
    modifies root, root.all
    ensures TreeIs(root, cmp, m - {n.key}) && root.all == old(root.all) - {n} && n.key in m && ret == OK
  {
    hide Ordered;
    ModelRemove(root.all, n);
    ghost var k;
    ret, k := Remove(root, n, cmp);
  }

  /** The first node, if there is one. */
  method FirstOf<K(!new), V>(root: Root<K, V>, ghost cmp: (K, K) -> int, ghost m: map<K, V>) returns (n: Node?<K, V>)
    requires TreeIs(root, cmp, m)
    ensures if m == map[] then n == null && root.node == null
      else n != null && n in root.all && n.key in m && m[n.key] == n.value
  {
    n := First(root);
    if n != null {
      InorderNode(root.tree, n);
      assert n.key in m;
    } else {
      assert root.tree.Leaf?;
    }
  }

  /** All keys, ascending. */
  method KeysOf<K(!new, 0), V>(root: Root<K, V>, ghost cmp: (K, K) -> int, ghost m: map<K, V>) returns (keys: array<K>)
    requires TreeIs(root, cmp, m)
    ensures fresh(keys)
    ensures forall i, j :: 0 <= i < j < keys.Length ==> cmp(keys[i], keys[j]) < 0
    ensures forall k :: k in keys[..] <==> k in m
  {
    keys := ListKeys(root, cmp);
    forall k | k in m ensures k in keys[..] {
      var n :| n in root.all && n.key == k;
    }
    forall k | k in keys[..] ensures k in m {
      var i :| 0 <= i < keys.Length && keys[i] == k;
      var n :| n in root.all && n.key == keys[i];
    }
  }
}
