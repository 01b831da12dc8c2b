/**
 The key/value maps of os/types.c: a tree of nodes with a name and a value, and
 cceph_os_map_update, which patches one such tree by another. A value of length 0 in the
 patch means that the key is to go.
 */
module OsMap {
  import opened RbShape
  import opened RbLinks
  import opened RbTree
  import opened RbErase
  import opened RbOrder
  import opened RbMap
  import opened RbTreeMap
  import opened RbWalk
  import opened Errno
  import opened KvPatch

  type MapRoot = Root<Bytes, Bytes>
  type MapNode = Node<Bytes, Bytes>

  /** What one turn of the loop does to the map. */
  ghost function PatchOne(m: KvMap, k: Bytes, v: Bytes): KvMap {
    if v == [] then m - {k} else m[k := v]
  }

  ghost predicate Usable(root: MapRoot)
    reads root, root.all
  {
    Ordered(root, StrCmp) && AtHome(root) && KeysDistinct(root.all)
  }

  /** The map that a tree stands for. */
  ghost function Pairs(root: MapRoot): KvMap
    requires Usable(root)
    reads root, root.all
  {
    Model(root.all)
  }

  lemma PatchExtend(m: KvMap, patch: KvMap, k: Bytes, v: Bytes)
    requires k !in patch
    ensures PatchOne(Patch(m, patch), k, v) == Patch(m, patch[k := v])
  {
    var r, r' := PatchOne(Patch(m, patch), k, v), Patch(m, patch[k := v]);
    assert forall j :: j in r' <==> j in r;
  }

  lemma TreeIsUsable(root: MapRoot, m: KvMap)
    ensures TreeIs(root, StrCmp, m) <==> Usable(root) && Pairs(root) == m
  {}

  /** The old node of the key goes. */
  method RemoveOld(result: MapRoot, key: Bytes, ghost m: KvMap)
    requires TreeIs(result, StrCmp, m)
    modifies result, result.all
    ensures TreeIs(result, StrCmp, m - {key}) && result.all <= old(result.all)
  {
    StrCmpTotal();
    hide TreeIs, TotalOrder, StrCmp;
    var ret, node := Lookup(result, key, StrCmp, m);
    if node != null {
      ret := Drop(result, node, StrCmp, m);
    } else {
      assert m - {key} == m;
    }
  }

  /** A new one with a copy of the value comes in unless the value is empty. */
  method InsertNew(result: MapRoot, key: Bytes, value: Bytes, ghost m: KvMap)
    requires TreeIs(result, StrCmp, m) && key !in m
    modifies result, result.all
    ensures TreeIs(result, StrCmp, PatchOne(m, key, value)) && fresh(result.all - old(result.all))
  {
    StrCmpTotal();
    hide TreeIs, TotalOrder, StrCmp;
    if |value| > 0 {
      var ret := Put(result, key, value, StrCmp, m);
    } else {
      assert m - {key} == m;
    }
  }

  lemma PatchOneWithout(m: KvMap, k: Bytes, v: Bytes)
    ensures PatchOne(m - {k}, k, v) == PatchOne(m, k, v)
  {
    assert m - {k} - {k} == m - {k} && (m - {k})[k := v] == m[k := v];
  }

  /** The body of the loop. */
  method UpdateOne(result: MapRoot, key: Bytes, value: Bytes)
    requires Usable(result)
    modifies result, result.all
    ensures Usable(result) && fresh(result.all - old(result.all))
    ensures Pairs(result) == PatchOne(old(Pairs(result)), key, value)
  {
    ghost var m := Pairs(result);
    TreeIsUsable(result, m);
    PatchOneWithout(m, key, value);
    hide Usable, Pairs, TreeIs, StrCmp, PatchOne;
    RemoveOld(result, key, m);
    InsertNew(result, key, value, m - {key});
    TreeIsUsable(result, PatchOne(m, key, value));
  }

  /** The first `i` nodes of a walk, as a map. */
  ghost function Prefix(s: seq<MapNode>, i: nat): KvMap
    requires i <= |s|
  {
    if i == 0 then map[] else Prefix(s, i - 1)[s[i - 1].key := s[i - 1].value]
  }

  lemma {:induction false} PrefixEntry(s: seq<MapNode>, i: nat, j: nat)
    requires Sorted(StrCmp, s) && j < i <= |s|
    ensures s[j].key in Prefix(s, i) && Prefix(s, i)[s[j].key] == s[j].value
  {
    if j < i - 1 {
      PrefixEntry(s, i - 1, j);
      StrCmpEqual(s[j].key, s[i - 1].key);
    }
  }

  lemma {:induction false} PrefixKey(s: seq<MapNode>, i: nat, k: Bytes) returns (j: nat)
    requires i <= |s| && k in Prefix(s, i)
    ensures j < i && s[j].key == k
  {
    if k == s[i - 1].key {
      j := i - 1;
    } else {
      j := PrefixKey(s, i - 1, k);
    }
  }

  /** cceph_os_map_update: the result tree becomes the patched one, the input tree is only read. */
  method MapUpdate(result: MapRoot, input: MapRoot) returns (ret: int)
    requires Usable(result) && Usable(input) && result != input
    modifies result, result.all
    ensures Usable(result) && fresh(result.all - old(result.all)) && ret == OK
    ensures Pairs(result) == Patch(old(Pairs(result)), old(Pairs(input)))
  {
    hide Usable, Pairs, Inorder, Patch, Prefix, NodeAt;
    ghost var m, i := Pairs(result), 0;
    PatchNothing(m, input);
    UsableApart(result, input);
    var n := FirstNode(input);
    while n != null
      invariant Usable(input) && input.all == old(input.all) && input.tree == old(input.tree) && Pairs(input) == old(Pairs(input))
      invariant 0 <= i <= |Inorder(input.tree)| && n == NodeAt(input, i)
      invariant Usable(result) && fresh(result.all - old(result.all)) && result.all !! input.all
      invariant Pairs(result) == Patch(m, Prefix(Inorder(input.tree), i))
      decreases |Inorder(input.tree)| - i
    {
      NotAtEnd(input, i);
      n := UpdateTurn(n, result, input, m, i);
      i := i + 1;
    }
    WalkEnd(input, i);
    ret := OK;
  }

  lemma UsableApart(a: MapRoot, b: MapRoot)
    requires Usable(a) && Usable(b) && a != b
    ensures a.all !! b.all
  {
    HomesApart(a.all, a, b.all, b);
  }

  lemma NotAtEnd(input: MapRoot, i: nat)
    requires NodeAt(input, i) != null
    ensures i < |Inorder(input.tree)|
  {}

  ghost function NodeAt(input: MapRoot, i: nat): Node?<Bytes, Bytes>
    reads input
  {
    if i < |Inorder(input.tree)| then Inorder(input.tree)[i] else null
  }

  /** One turn: the key of the input node is patched, and the walk goes on. */
  method UpdateTurn(n: MapNode, result: MapRoot, input: MapRoot, ghost m: KvMap, ghost i: nat) returns (next: Node?<Bytes, Bytes>)
    requires Usable(result) && Usable(input) && result != input && result.all !! input.all
    requires i < |Inorder(input.tree)| && n == NodeAt(input, i)
    requires Pairs(result) == Patch(m, Prefix(Inorder(input.tree), i))
    modifies result, result.all
    ensures Usable(result) && fresh(result.all - old(result.all)) && Usable(input) && Pairs(input) == old(Pairs(input))
    ensures input.all == old(input.all) && input.tree == old(input.tree) && result.all !! input.all
    ensures Pairs(result) == Patch(m, Prefix(Inorder(input.tree), i + 1))
    ensures next == NodeAt(input, i + 1)
  {
    hide Usable, Pairs, Inorder, Patch, PatchOne, NodeAt, Prefix;
    IsNodeAt(input, i);
    WalkStep(input, m, i);
    UpdateOne(result, n.key, n.value);
    next := NextNode(n, input, i);
  }

  lemma IsNodeAt(input: MapRoot, i: nat)
    requires i < |Inorder(input.tree)|
    ensures NodeAt(input, i) == Inorder(input.tree)[i]
  {}

  method NextNode(n: MapNode, input: MapRoot, ghost i: nat) returns (next: Node?<Bytes, Bytes>)
    requires Usable(input) && i < |Inorder(input.tree)| && n == NodeAt(input, i)
    ensures next == NodeAt(input, i + 1)
  {
    hide Inorder, IsNext;
    NotCleared(input, n);
    next := Next(n, input);
    NextAt(Inorder(input.tree), i, n, next);
  }

  method FirstNode(input: MapRoot) returns (n: Node?<Bytes, Bytes>)
    requires Usable(input)
    ensures n == NodeAt(input, 0)
  {
    n := First(input);
  }

  lemma PatchNothing(m: KvMap, input: MapRoot)
    ensures Patch(m, Prefix(Inorder(input.tree), 0)) == m
  {}

  lemma WalkEnd(input: MapRoot, i: nat)
    requires Usable(input) && i <= |Inorder(input.tree)| && NodeAt(input, i) == null
    ensures Prefix(Inorder(input.tree), i) == Pairs(input)
  {
    hide Prefix, Pairs, Usable;
    WalkModel(input);
  }

  lemma WalkModel(input: MapRoot)
    requires Usable(input)
    ensures Prefix(Inorder(input.tree), |Inorder(input.tree)|) == Pairs(input)
  {
    forall n ensures n in input.all <==> n in Inorder(input.tree)
    {
      InInput(input, n);
    }
    PrefixAll(Inorder(input.tree), input.all);
  }

  lemma PrefixAll(s: seq<MapNode>, ns: set<MapNode>)
    requires Sorted(StrCmp, s) && KeysDistinct(ns) && forall n :: n in ns <==> n in s
    ensures Prefix(s, |s|) == Model(ns)
  {
    hide Sorted, Prefix, KeysDistinct, StrCmp;
    var p, m := Prefix(s, |s|), Model(ns);
    forall k | k in p ensures k in m && m[k] == p[k] {
      var j := PrefixKey(s, |s|, k);
      PrefixEntry(s, |s|, j);
      assert s[j] in ns;
    }
    forall k | k in m ensures k in p {
      var n :| n in ns && n.key == k;
      var j :| 0 <= j < |s| && s[j] == n;
      PrefixEntry(s, |s|, j);
    }
  }

  lemma InInput(input: MapRoot, n: MapNode)
    requires Usable(input)
    ensures n in input.all <==> n in Inorder(input.tree)
  {
    InorderNode(input.tree, n);
  }

  lemma WalkStep(input: MapRoot, m: KvMap, i: nat)
    requires Usable(input) && i < |Inorder(input.tree)|
    ensures var s := Inorder(input.tree);
      s[i] in s && PatchOne(Patch(m, Prefix(s, i)), s[i].key, s[i].value) == Patch(m, Prefix(s, i + 1))
  {
    var s := Inorder(input.tree);
    if s[i].key in Prefix(s, i) {
      var j := PrefixKey(s, i, s[i].key);
      StrCmpEqual(s[j].key, s[i].key);
      assert false;
    }
    PatchExtend(m, Prefix(s, i), s[i].key, s[i].value);
  }

  /** One turn of the loop below. */
  method EraseFirst(root: MapRoot, n: MapNode) returns (next: Node?<Bytes, Bytes>)
    requires Usable(root) && n == NodeAt(root, 0)
    modifies root, root.all
    ensures Usable(root) && root.all <= old(root.all)
    ensures old(Inorder(root.tree)) == [n] + Inorder(root.tree) && next == NodeAt(root, 0)
  {
    hide Sorted, Inorder, NoDuplicates, RemovedAt;
    ghost var s := Inorder(root.tree);
    FirstFacts(root, n);
    var ret;
    ghost var k;
    ret, k := Remove(root, n, StrCmp);
    RemovedFirst(s, Inorder(root.tree), k, n);
    next := FirstNode(root);
  }

  lemma FirstFacts(root: MapRoot, n: MapNode)
    requires Usable(root) && n == NodeAt(root, 0)
    ensures n in root.all && NoDuplicates(Inorder(root.tree)) && Inorder(root.tree) != [] && Inorder(root.tree)[0] == n
  {
    InorderNode(root.tree, n);
    InorderDistinct(root.tree);
  }

  lemma RemovedFirst(s: seq<MapNode>, s': seq<MapNode>, k: nat, n: MapNode)
    requires NoDuplicates(s) && s != [] && s[0] == n && RemovedAt(s, s', k, n)
    ensures s == [n] + s'
  {}

  /** cceph_os_map_node_free_tree: the first node is erased and freed until none is left, so each
      node of the tree is freed once. */
  method FreeTree(root: MapRoot) returns (ret: int, ghost freed: seq<MapNode>)
    requires Usable(root)
    modifies root, root.all
    ensures Usable(root) && root.all == {} && Pairs(root) == map[] && root.node == null && ret == OK
    ensures freed == old(Inorder(root.tree)) && NoDuplicates(freed)
  {
    hide Usable, Pairs, Inorder, NodeAt;
    AllDistinct(root);
    freed := [];
    var n := FirstNode(root);
    while n != null
      invariant Usable(root) && root.all <= old(root.all)
      invariant freed + Inorder(root.tree) == old(Inorder(root.tree))
      invariant n == NodeAt(root, 0)
      decreases |Inorder(root.tree)|
    {
      freed := freed + [n];
      n := EraseFirst(root, n);
    }
    NothingLeft(root);
    ret := OK;
  }

  lemma NothingLeft(root: MapRoot)
    requires Usable(root) && NodeAt(root, 0) == null
    ensures Inorder(root.tree) == [] && root.all == {} && Pairs(root) == map[] && root.node == null
  {
    assert root.tree.Leaf?;
  }

  lemma AllDistinct(root: MapRoot)
    requires Usable(root)
    ensures NoDuplicates(Inorder(root.tree))
  {
    InorderDistinct(root.tree);
  }
}
