/**
 os/mem_store.c: a tree of collections, each with a tree of objects and a tree of pairs, and each
 object with its bytes and a tree of pairs. The trees are those of RbTree, changed in place; ghost
 fields hold the maps that they stand for.
 */
module MemStore {
  import opened Options
  import opened RbShape
  import opened RbLinks
  import opened RbTree
  import opened RbOrder
  import opened RbMap
  import opened RbTreeMap
  import opened Errno
  import opened KvPatch
  import opened OsMap
  import opened OsOps
  import opened Transaction
  import opened StoreSpec
  import opened StoreHistory

  const INT64_LIMIT := 0x8000_0000_0000_0000

  type ObjectRoot = Root<Bytes, ObjectNode>
  type CollRoot = Root<int, CollNode>

  class ObjectNode {
    const oid: Bytes
    const kv: MapRoot
    ghost const coll: CollNode
    var data: Bytes
    ghost var pairs: KvMap        // what the tree of pairs stands for

    ghost function Value(): Obj
      reads this
    {
      Obj(data, pairs)
    }

    constructor (oid: Bytes, ghost coll: CollNode)
      ensures this.oid == oid && this.coll == coll && Value() == Obj([], map[])
      ensures fresh(kv) && Usable(kv) && Pairs(kv) == map[] && kv.all == {}
    {
      this.oid := oid;
      this.coll := coll;
      data := [];
      var root := new Root();
      kv := root;
      pairs := map[];
      new;
      assert kv.tree.Leaf?;
    }

    /** The write of cceph_mem_store_do_op_obj_write: the buffer grows to the end of the write with
        new space zeroed, and the bytes are copied in. */
    method Write(offset: nat, bytes: Bytes)
      requires offset + |bytes| < INT64_LIMIT
      modifies this`data
      ensures data == WriteAt(old(data), offset, bytes)
    {
      hide WriteAt;
      if |bytes| == 0 {
        return;
      }
      ghost var was := data;
      if |data| < offset + |bytes| {
        var newLength := offset + |bytes|;
        data := data + seq(newLength - |data|, i => 0);
      }
      CopiedIn(was, data, offset, bytes);
      data := data[..offset] + bytes + data[offset + |bytes|..];
    }

    /** The read of cceph_mem_store_read_obj. */
    method Read(offset: nat, length: int) returns (ret: int, r: Bytes)
      ensures (ret, r) == NarrowRead(data, offset, length)
    {
      if |data| == 0 || |data| <= offset {
        return OK, [];
      }
      var readLength := Narrow(length);
      if readLength <= 0 {
        readLength := Narrow(|data|);
      }
      if readLength > |data| - offset {
        readLength := Narrow(|data| - offset);
      }
      if readLength < 0 {
        return ERR_NO_ENOUGH_MEM, [];
      }
      ret, r := OK, data[offset..offset + readLength];
    }
  }

  class CollNode {
    const cid: int
    const index: ObjectRoot
    const kv: MapRoot
    ghost var objects: map<Bytes, ObjectNode>    // what the tree of objects stands for
    ghost var pairs: KvMap

    ghost predicate Valid()
      reads this, objects.Values
    {
      forall o :: o in objects ==> objects[o].oid == o && objects[o].coll == this
    }

    ghost function Value(): Coll
      reads this, objects.Values
    {
      Coll(map o | o in objects :: objects[o].Value(), pairs)
    }

    /** At most the object `x` has changed. */
    twostate lemma OneObject(x: ObjectNode)
      requires old(Valid()) && objects == old(objects) && pairs == old(pairs) && x.oid in objects && objects[x.oid] == x
      requires forall y :: y in objects.Values && y != x ==> unchanged(y)
      ensures Valid() && Value() == old(Value()).(objects := old(Value()).objects[x.oid := x.Value()])
    {
      forall o | o in objects && o != x.oid ensures objects[o].Value() == old(objects[o].Value()) {
        assert objects[o] in objects.Values;
      }
    }

    /** The object `x` is new, and no other has changed. */
    twostate lemma MoreObjects(new x: ObjectNode)
      requires old(Valid()) && objects == old(objects)[x.oid := x] && pairs == old(pairs) && x.coll == this
      requires unchanged(old(objects.Values)) && x !in old(objects.Values)
      ensures Valid() && Value() == old(Value()).(objects := old(Value()).objects[x.oid := x.Value()])
    {
      forall o | o in objects && o != x.oid ensures objects[o].Value() == old(objects[o].Value()) {
        assert objects[o] in old(objects.Values);
      }
    }

    /** One object has gone. */
    twostate lemma FewerObjects(oid: Bytes)
      requires old(Valid()) && objects == old(objects) - {oid} && pairs == old(pairs)
      requires forall o :: o in objects ==> unchanged(objects[o])
      ensures Valid() && Value() == old(Value()).(objects := old(Value()).objects - {oid})
    {
    }

    lemma OtherObjects(x: ObjectNode)
      requires Valid() && x.oid in objects && objects[x.oid] == x
      ensures forall o :: o in objects - {x.oid} ==> objects[o] != x
    {}

    lemma ObjectAt(x: ObjectNode)
      requires x.oid in objects && objects[x.oid] == x
      ensures x.oid in Value().objects && Value().objects[x.oid] == x.Value()
    {}

    twostate lemma OnlyPairs()
      requires objects == old(objects) && unchanged(objects.Values)
      ensures Valid() <==> old(Valid())
      ensures Value() == old(Value()).(kv := pairs)
    {}

    constructor (cid: int)
      ensures this.cid == cid && objects == map[] && pairs == map[] && Value() == Coll(map[], map[])
      ensures fresh(kv) && Usable(kv) && Pairs(kv) == map[] && kv.all == {}
      ensures fresh(index) && TreeIs(index, StrCmp, map[]) && index.all == {}
    {
      this.cid := cid;
      var root := new Root();
      kv := root;
      var objectRoot := new Root();
      index := objectRoot;
      objects := map[];
      pairs := map[];
      new;
      assert kv.tree.Leaf? && index.tree.Leaf?;
    }
  }

  class MemStore {
    const index: CollRoot
    ghost var colls: map<int, CollNode>           // what the tree of collections stands for
    ghost var cnodes: set<CollNode>               // these and removed ones
    ghost var nodes: set<ObjectNode>              // the objects, also removed ones
    ghost var holder: map<MapRoot, object>        // whose each tree of pairs is
    ghost var keeper: map<ObjectRoot, CollNode>   // whose each tree of objects is
    ghost var Repr: set<object>                   // all roots, and the nodes of all trees

    // ---- what the ghost fields say ----

    ghost predicate Colls()
      reads this`colls, this`cnodes, this`nodes, cnodes, nodes
    {
      forall c :: c in colls ==>
        colls[c] in cnodes && colls[c].cid == c && colls[c].objects.Values <= nodes && colls[c].Valid()
    }

    /** The plain nested map that the store stands for. */
    ghost function Value(): Store
      requires Colls()
      reads this`colls, this`cnodes, this`nodes, cnodes, nodes
    {
      map c | c in colls :: colls[c].Value()
    }

    /** Each object and each collection has its own trees. */
    ghost predicate Links()
      reads this`cnodes, this`nodes, this`holder, this`keeper, this`Repr
    {
      && this !in Repr
      && (forall x :: x in nodes ==> x !in Repr && x.kv in holder && holder[x.kv] == x)
      && (forall d :: d in cnodes ==>
        d !in Repr && d.kv in holder && holder[d.kv] == d && d.index in keeper && keeper[d.index] == d)
    }

    // ---- what the trees say ----

    ghost predicate ObjectTree(x: ObjectNode)
      reads x`pairs, x.kv, x.kv.all
    {
      Usable(x.kv) && Pairs(x.kv) == x.pairs
    }

    ghost predicate ObjectTrees()
      reads this`nodes, this`Repr, nodes, Repr
    {
      forall x :: x in nodes ==> x.kv in Repr && x.kv.all <= Repr && ObjectTree(x)
    }

    ghost predicate PairTree(d: CollNode)
      reads d`pairs, d.kv, d.kv.all
    {
      Usable(d.kv) && Pairs(d.kv) == d.pairs
    }

    ghost predicate PairTrees()
      reads this`cnodes, this`Repr, cnodes, Repr
    {
      forall d :: d in cnodes ==> d.kv in Repr && d.kv.all <= Repr && PairTree(d)
    }

    ghost predicate Shelf(d: CollNode)
      reads d`objects, d.index, d.index.all
    {
      TreeIs(d.index, StrCmp, d.objects)
    }

    ghost predicate Shelves()
      reads this`cnodes, this`Repr, cnodes, Repr
    {
      forall d :: d in cnodes ==> d.index in Repr && d.index.all <= Repr && Shelf(d)
    }

    ghost predicate Index()
      reads this`colls, this`Repr, index, Repr
    {
      index in Repr && index.all <= Repr && TreeIs(index, IntCmp, colls)
    }

    ghost predicate Trees()
      reads this`colls, this`cnodes, this`nodes, this`Repr, cnodes, nodes, Repr, index
    {
      ObjectTrees() && PairTrees() && Shelves() && Index()
    }

    ghost predicate Valid()
      reads this, cnodes, nodes, Repr, index
    {
      Colls() && Links() && Trees()
    }

    /** All objects that the store is made of, but itself. */
    ghost function Things(): set<object>
      reads this`cnodes, this`nodes, this`Repr
    {
      cnodes + nodes + Repr
    }

    constructor ()
      ensures Valid() && Value() == map[] && Log([], Value()) && fresh(Things())
    {
      var root := new Root();
      index := root;
      colls := map[];
      cnodes := {};
      nodes := {};
      holder := map[];
      keeper := map[];
      new;
      Repr := {index};
      assert index.tree.Leaf?;
    }

    // ---- what a change of one tree of pairs leaves alone ----

    twostate lemma OtherObjectTrees(r: MapRoot)
      requires old(ObjectTrees()) && old(Usable(r)) && old(Repr) <= Repr
      requires forall x :: x in old(nodes) && x.kv != r ==> unchanged(x`pairs)
      requires forall o: object :: o in old(Repr) && o != r && o !in old(r.all) ==> unchanged(o)
      ensures forall x :: x in old(nodes) && x.kv != r ==> x.kv in Repr && x.kv.all <= Repr && ObjectTree(x)
    {
      forall x | x in old(nodes) && x.kv != r ensures x.kv in Repr && x.kv.all <= Repr && ObjectTree(x) {
        assert old(ObjectTree(x));
        HomesApart(old(x.kv.all), x.kv, old(r.all), r);
        assert unchanged(x.kv);
        assert unchanged(x.kv.all);
      }
    }

    twostate lemma OtherPairTrees(r: MapRoot)
      requires old(PairTrees()) && old(Usable(r)) && old(Repr) <= Repr
      requires forall d :: d in old(cnodes) && d.kv != r ==> unchanged(d`pairs)
      requires forall o: object :: o in old(Repr) && o != r && o !in old(r.all) ==> unchanged(o)
      ensures forall d :: d in old(cnodes) && d.kv != r ==> d.kv in Repr && d.kv.all <= Repr && PairTree(d)
    {
      forall d | d in old(cnodes) && d.kv != r ensures d.kv in Repr && d.kv.all <= Repr && PairTree(d) {
        assert old(PairTree(d));
        HomesApart(old(d.kv.all), d.kv, old(r.all), r);
        assert unchanged(d.kv);
        assert unchanged(d.kv.all);
      }
    }

    twostate lemma SameShelves(r: MapRoot)
      requires old(Shelves() && Index()) && unchanged(this`colls, this`cnodes) && old(Repr) <= Repr
      requires forall d :: d in old(cnodes) ==> unchanged(d`objects)
      requires forall o: object :: o in old(Repr) && o != r && o !in old(r.all) ==> unchanged(o)
      ensures Shelves() && Index()
    {
      hide TreeIs;
      forall d | d in cnodes ensures d.index in Repr && d.index.all <= Repr && Shelf(d) {
        assert old(Shelf(d));
        assert unchanged(d.index);
        assert unchanged(d.index.all);
      }
      assert unchanged(index);
      assert unchanged(index.all);
    }

    twostate lemma SameLinks(new more: set<object>)
      requires old(Links()) && Repr == old(Repr) + more
      requires forall o :: o in more ==> o is MapNode || o is Node<Bytes, ObjectNode> || o is Node<int, CollNode>
      requires unchanged(this`cnodes, this`nodes, this`holder, this`keeper)
      ensures Links()
    {}

    /** cceph_os_map_update on one of the store's own trees. */
    method UpdateTree(r: MapRoot, patch: MapRoot)
      requires Usable(r) && Usable(patch) && r != patch
      modifies this`Repr, r, r.all
      ensures Usable(r) && Pairs(r) == Patch(old(Pairs(r)), old(Pairs(patch)))
      ensures fresh(r.all - old(r.all)) && Repr == old(Repr) + r.all
    {
      hide Usable, Pairs, Patch;
      var ret := MapUpdate(r, patch);
      Repr := Repr + r.all;
    }

    // ---- what changes of trees of objects and of the tree of collections leave alone ----

    twostate lemma KeptObjectTrees()
      requires old(ObjectTrees()) && old(Repr) <= Repr
      requires forall x :: x in old(nodes) ==> unchanged(x`pairs)
      requires forall o: object :: o in old(Repr) && (o is MapRoot || o is MapNode) ==> unchanged(o)
      ensures forall x :: x in old(nodes) ==> x.kv in Repr && x.kv.all <= Repr && ObjectTree(x)
    {
      hide Usable, Pairs;
      forall x | x in old(nodes) ensures x.kv in Repr && x.kv.all <= Repr && ObjectTree(x) {
        assert old(ObjectTree(x));
        assert unchanged(x.kv);
        assert unchanged(x.kv.all);
      }
    }

    twostate lemma KeptPairTrees()
      requires old(PairTrees()) && old(Repr) <= Repr
      requires forall d :: d in old(cnodes) ==> unchanged(d`pairs)
      requires forall o: object :: o in old(Repr) && (o is MapRoot || o is MapNode) ==> unchanged(o)
      ensures forall d :: d in old(cnodes) ==> d.kv in Repr && d.kv.all <= Repr && PairTree(d)
    {
      hide Usable, Pairs;
      forall d | d in old(cnodes) ensures d.kv in Repr && d.kv.all <= Repr && PairTree(d) {
        assert old(PairTree(d));
        assert unchanged(d.kv);
        assert unchanged(d.kv.all);
      }
    }

    twostate lemma KeptShelves()
      requires old(Shelves()) && old(Repr) <= Repr
      requires forall d :: d in old(cnodes) ==> unchanged(d`objects)
      requires forall o: object :: o in old(Repr) && (o is ObjectRoot || o is Node<Bytes, ObjectNode>) ==> unchanged(o)
      ensures forall d :: d in old(cnodes) ==> d.index in Repr && d.index.all <= Repr && Shelf(d)
    {
      hide TreeIs;
      forall d | d in old(cnodes) ensures d.index in Repr && d.index.all <= Repr && Shelf(d) {
        assert old(Shelf(d));
        assert unchanged(d.index);
        assert unchanged(d.index.all);
      }
    }

    twostate lemma OtherShelves(s: ObjectRoot)
      requires old(Shelves()) && old(AtHome(s)) && old(Repr) <= Repr
      requires forall d :: d in old(cnodes) && d.index != s ==> unchanged(d`objects)
      requires forall o: object :: o in old(Repr) && o != s && o !in old(s.all) ==> unchanged(o)
      ensures forall d :: d in old(cnodes) && d.index != s ==> d.index in Repr && d.index.all <= Repr && Shelf(d)
    {
      forall d | d in old(cnodes) && d.index != s ensures d.index in Repr && d.index.all <= Repr && Shelf(d) {
        assert old(Shelf(d));
        HomesApart(old(d.index.all), d.index, old(s.all), s);
        assert unchanged(d.index);
        assert unchanged(d.index.all);
      }
    }

    twostate lemma KeptIndex()
      requires old(Index()) && colls == old(colls) && old(Repr) <= Repr
      requires forall o: object :: o in old(Repr) && (o is CollRoot || o is Node<int, CollNode>) ==> unchanged(o)
      ensures Index()
    {
      hide TreeIs;
      assert unchanged(index);
      assert unchanged(index.all);
    }

    // ---- the pairs of a collection ----

    lemma OwnPairs(d: CollNode)
      requires Links() && d in cnodes
      ensures forall x :: x in nodes ==> x.kv != d.kv
      ensures forall e :: e in cnodes && e != d ==> e.kv != d.kv
    {}

    lemma OwnPairTree(d: CollNode)
      requires Links() && Trees() && d in cnodes
      ensures Usable(d.kv) && Pairs(d.kv) == d.pairs && d.kv in Repr && d.kv.all <= Repr && this !in Things()
    {
      assert PairTree(d);
    }

    twostate lemma OldPairTree(d: CollNode)
      requires old(PairTrees()) && d in old(cnodes)
      ensures old(Usable(d.kv) && Pairs(d.kv) == d.pairs && d.kv in Repr && d.kv.all <= Repr)
    {
      assert old(PairTree(d));
    }

    twostate lemma AllObjectTrees(r: MapRoot)
      requires old(ObjectTrees()) && old(Usable(r)) && old(Repr) <= Repr && nodes == old(nodes)
      requires forall x :: x in nodes ==> unchanged(x`pairs)
      requires forall x :: x in nodes ==> x.kv != r
      requires forall o: object :: o in old(Repr) && o != r && o !in old(r.all) ==> unchanged(o)
      ensures ObjectTrees()
    {
      hide Usable, Pairs;
      OtherObjectTrees(r);
      forall x | x in nodes ensures x.kv in Repr && x.kv.all <= Repr && ObjectTree(x) {
        assert ObjectTree(x);
      }
    }

    twostate lemma PairTreesBut(d: CollNode)
      requires old(PairTrees()) && old(Usable(d.kv)) && Repr == old(Repr) + d.kv.all && cnodes == old(cnodes)
      requires Usable(d.kv) && Pairs(d.kv) == d.pairs && d.kv in old(Repr)
      requires forall e :: e in cnodes && e != d ==> unchanged(e`pairs)
      requires forall e :: e in cnodes && e != d ==> e.kv != d.kv
      requires forall o: object :: o in old(Repr) && o != d.kv && o !in old(d.kv.all) ==> unchanged(o)
      ensures PairTrees()
    {
      hide Usable, Pairs;
      OtherPairTrees(d.kv);
      forall e | e in cnodes ensures e.kv in Repr && e.kv.all <= Repr && PairTree(e) {
        assert e != d ==> PairTree(e);
      }
    }

    /** The pairs of the collection `d` have changed, and no other tree. */
    twostate lemma PairsChanged(d: CollNode)
      requires old(Links() && Trees()) && d in cnodes && unchanged(this`colls, this`cnodes, this`nodes, this`holder, this`keeper)
      requires Usable(d.kv) && Pairs(d.kv) == d.pairs && Repr == old(Repr) + d.kv.all && d.objects == old(d.objects)
      requires forall o: object :: (o in old(cnodes) || o in old(nodes) || o in old(Repr)) && o != d && o != d.kv && o !in old(d.kv.all) ==> unchanged(o)
      ensures Links() && Trees()
    {
      hide Usable, Pairs, ObjectTrees, PairTrees, Shelves, Index, Links;
      SameLinks(d.kv.all);
      OwnPairs(d);
      OldPairTree(d);
      AllObjectTrees(d.kv);
      PairTreesBut(d);
      SameShelves(d.kv);
    }

    /** The tree of pairs of a collection is patched, and no other tree changes. */
    method PatchTree(d: CollNode, patch: MapRoot)
      requires Links() && Trees() && d in cnodes && Usable(patch) && patch !in Repr
      modifies this`Repr, d`pairs, d.kv, d.kv.all
      ensures Links() && Trees() && fresh(Repr - old(Repr)) && d.pairs == Patch(old(d.pairs), old(Pairs(patch)))
    {
      hide Usable, Pairs, Patch, Trees, Links;
      OwnPairTree(d);
      UpdateTree(d.kv, patch);
      d.pairs := Pairs(d.kv);
      PairsChanged(d);
    }

    method UpdatePairs(d: CollNode, patch: MapRoot)
      requires Valid() && Live(d) && Usable(patch) && patch !in Repr
      modifies this`Repr, d`pairs, d.kv, d.kv.all
      ensures Valid() && fresh(Repr - old(Repr))
      ensures Value() == old(Value())[d.cid := old(d.Value()).(kv := Patch(old(d.pairs), old(Pairs(patch))))]
    {
      hide Usable, Pairs, Patch, Trees, Links, Value, CollNode.Value, CollNode.Valid;
      PatchTree(d, patch);
      d.OnlyPairs();
      OneColl(d.cid);
    }

    /** cceph_os_map_node_free_tree on the pairs of a collection. */
    method FreePairs(d: CollNode)
      requires Links() && Trees() && d in cnodes
      modifies d`pairs, d.kv, d.kv.all
      ensures Links() && Trees() && d.kv.node == null
    {
      hide Usable, Pairs, Trees, Links;
      OwnPairTree(d);
      var ret;
      ghost var freed;
      ret, freed := FreeTree(d.kv);
      d.pairs := Pairs(d.kv);
      PairsChanged(d);
    }

    // ---- the pairs of an object ----

    lemma OwnObjectPairs(x: ObjectNode)
      requires Links() && x in nodes
      ensures forall y :: y in nodes && y != x ==> y.kv != x.kv
      ensures forall d :: d in cnodes ==> d.kv != x.kv
    {}

    lemma OwnObjectTree(x: ObjectNode)
      requires Links() && Trees() && x in nodes
      ensures Usable(x.kv) && Pairs(x.kv) == x.pairs && x.kv in Repr && x.kv.all <= Repr && this !in Things()
    {
      assert ObjectTree(x);
    }

    twostate lemma OldObjectTree(x: ObjectNode)
      requires old(ObjectTrees()) && x in old(nodes)
      ensures old(Usable(x.kv) && Pairs(x.kv) == x.pairs && x.kv in Repr && x.kv.all <= Repr)
    {
      assert old(ObjectTree(x));
    }

    twostate lemma AllPairTrees(r: MapRoot)
      requires old(PairTrees()) && old(Usable(r)) && old(Repr) <= Repr && cnodes == old(cnodes)
      requires forall d :: d in cnodes ==> unchanged(d`pairs)
      requires forall d :: d in cnodes ==> d.kv != r
      requires forall o: object :: o in old(Repr) && o != r && o !in old(r.all) ==> unchanged(o)
      ensures PairTrees()
    {
      hide Usable, Pairs;
      OtherPairTrees(r);
      forall d | d in cnodes ensures d.kv in Repr && d.kv.all <= Repr && PairTree(d) {
        assert PairTree(d);
      }
    }

    twostate lemma ObjectTreesBut(x: ObjectNode)
      requires old(ObjectTrees()) && old(Usable(x.kv)) && Repr == old(Repr) + x.kv.all && nodes == old(nodes)
      requires Usable(x.kv) && Pairs(x.kv) == x.pairs && x.kv in old(Repr)
      requires forall y :: y in nodes && y != x ==> unchanged(y`pairs)
      requires forall y :: y in nodes && y != x ==> y.kv != x.kv
      requires forall o: object :: o in old(Repr) && o != x.kv && o !in old(x.kv.all) ==> unchanged(o)
      ensures ObjectTrees()
    {
      hide Usable, Pairs;
      OtherObjectTrees(x.kv);
      forall y | y in nodes ensures y.kv in Repr && y.kv.all <= Repr && ObjectTree(y) {
        assert y != x ==> ObjectTree(y);
      }
    }

    /** The pairs of the object `x` have changed, and no other tree. */
    twostate lemma ObjectPairsChanged(x: ObjectNode)
      requires old(Links() && Trees()) && x in nodes && unchanged(this`colls, this`cnodes, this`nodes, this`holder, this`keeper)
      requires Usable(x.kv) && Pairs(x.kv) == x.pairs && Repr == old(Repr) + x.kv.all
      requires forall o: object :: (o in old(cnodes) || o in old(nodes) || o in old(Repr)) && o != x && o != x.kv && o !in old(x.kv.all) ==> unchanged(o)
      ensures Links() && Trees()
    {
      hide Usable, Pairs, ObjectTrees, PairTrees, Shelves, Index, Links;
      SameLinks(x.kv.all);
      OwnObjectPairs(x);
      OldObjectTree(x);
      ObjectTreesBut(x);
      AllPairTrees(x.kv);
      SameShelves(x.kv);
    }

    method PatchObjectTree(x: ObjectNode, patch: MapRoot)
      requires Links() && Trees() && x in nodes && Usable(patch) && patch !in Repr
      modifies this`Repr, x`pairs, x.kv, x.kv.all
      ensures Links() && Trees() && fresh(Repr - old(Repr)) && x.pairs == Patch(old(x.pairs), old(Pairs(patch)))
    {
      hide Usable, Pairs, Patch, Trees, Links;
      OwnObjectTree(x);
      UpdateTree(x.kv, patch);
      x.pairs := Pairs(x.kv);
      ObjectPairsChanged(x);
    }

    method UpdateObjectPairs(d: CollNode, x: ObjectNode, patch: MapRoot)
      requires Valid() && Holds(d, x) && Usable(patch) && patch !in Repr
      modifies this`Repr, x`pairs, x.kv, x.kv.all
      ensures Valid() && fresh(Repr - old(Repr)) && x.oid in old(d.Value()).objects
      ensures Value() == old(Value())[d.cid := PatchIn(old(d.Value()), x.oid, old(Pairs(patch)))]
    {
      hide Usable, Pairs, Patch, Trees, Links, Value, CollNode.Value, CollNode.Valid;
      d.ObjectAt(x);
      PatchObjectTree(x, patch);
      d.OneObject(x);
      OneColl(d.cid);
    }

    /** cceph_mem_store_object_node_free: the pairs are freed with the object. */
    method FreeObject(x: ObjectNode)
      requires Links() && Trees() && x in nodes
      modifies x`pairs, x.kv, x.kv.all
      ensures Links() && Trees() && x.kv.node == null && x.pairs == map[]
    {
      hide Usable, Pairs, Trees, Links;
      OwnObjectTree(x);
      var ret;
      ghost var freed;
      ret, freed := FreeTree(x.kv);
      x.pairs := Pairs(x.kv);
      ObjectPairsChanged(x);
    }

    // ---- one collection changes ----

    /** When at most one collection and its objects are new or changed, the others are as before. */
    twostate lemma OtherColls(cid: int)
      requires old(Colls()) && cid in colls && colls == old(colls)[cid := colls[cid]] && old(nodes) <= nodes && old(cnodes) <= cnodes
      requires forall d: CollNode :: d in old(cnodes) && d != colls[cid] ==> unchanged(d)
      requires forall x: ObjectNode :: x in old(nodes) && x.coll != colls[cid] ==> unchanged(x)
      requires colls[cid].cid == cid
      ensures forall c :: c in colls && c != cid ==> OtherColl(c)
    {
      forall c | c in colls && c != cid ensures OtherColl(c) {
        var d := colls[c];
        assert old(d.Valid()) && d.cid == c && d in old(cnodes);
        assert unchanged(d);
        forall x | x in d.objects.Values ensures unchanged(x) {
          assert x in old(nodes) && x.coll == d;
        }
      }
    }

    twostate predicate OtherColl(c: int)
      requires c in colls
      reads this, colls[c], colls[c].objects.Values
    {
      var d := colls[c];
      && d in cnodes && d.Valid() && d.cid == c && d.objects.Values <= nodes
      && c in old(colls) && old(colls)[c] == d && old(d.objects.Values) == d.objects.Values && d.Value() == old(d.Value())
    }

    /** If that collection is valid, the store has its new value and the old values of the others. */
    twostate lemma OneColl(cid: int)
      requires old(Colls()) && cid in colls && colls == old(colls)[cid := colls[cid]] && old(nodes) <= nodes && old(cnodes) <= cnodes
      requires forall d: CollNode :: d in old(cnodes) && d != colls[cid] ==> unchanged(d)
      requires forall x: ObjectNode :: x in old(nodes) && x.coll != colls[cid] ==> unchanged(x)
      requires colls[cid] in cnodes && colls[cid].Valid() && colls[cid].cid == cid && colls[cid].objects.Values <= nodes
      ensures Colls() && Value() == old(Value())[cid := colls[cid].Value()]
    {
      hide CollNode.Value, CollNode.Valid;
      OtherColls(cid);
      var v, w := Value(), old(Value());
      forall c | c in v && c != cid ensures c in w && v[c] == w[c] {
        assert OtherColl(c);
        assert v[c] == colls[c].Value();
      }
      assert v[cid] == colls[cid].Value();
    }

    // ---- finding ----

    ghost predicate Live(d: CollNode)
      reads this
    {
      d in cnodes && d.cid in colls && colls[d.cid] == d
    }

    ghost predicate Holds(d: CollNode, x: ObjectNode)
      reads this, d
    {
      Live(d) && x.oid in d.objects && d.objects[x.oid] == x && x in nodes && x.coll == d
    }

    lemma IndexIs()
      requires Trees()
      ensures TreeIs(index, IntCmp, colls) && TotalOrder(IntCmp)
    {
      IntCmpTotal();
    }

    lemma CollIs(cid: int)
      requires Colls() && cid in colls
      ensures colls[cid].cid == cid && Live(colls[cid]) && colls[cid].Valid()
    {}

    method FindColl(cid: int) returns (ret: int, n: Node?<int, CollNode>)
      requires Valid()
      ensures ret == if cid in colls then OK else ERR_MAP_NODE_NOT_EXIST
      ensures if cid in colls then n != null && n in index.all && n.key == cid && n.value == colls[cid] else n == null
      ensures n != null ==> n.value.cid == cid && Live(n.value)
    {
      hide TreeIs, TotalOrder, Trees, Links, IntCmp, Colls, Live;
      IndexIs();
      if cid in colls {
        CollIs(cid);
      }
      ret, n := Lookup(index, cid, IntCmp, colls);
    }

    lemma ShelfIs(d: CollNode)
      requires Trees() && d in cnodes
      ensures TreeIs(d.index, StrCmp, d.objects) && TotalOrder(StrCmp) && AtHome(d.index)
      ensures d.index in Repr && d.index.all <= Repr
    {
      assert Shelf(d);
      StrCmpTotal();
    }

    lemma ObjectIs(d: CollNode, oid: Bytes)
      requires Colls() && Live(d) && oid in d.objects
      ensures d.objects[oid].oid == oid && Holds(d, d.objects[oid])
    {}

    method FindObject(d: CollNode, oid: Bytes) returns (ret: int, n: Node?<Bytes, ObjectNode>)
      requires Valid() && Live(d)
      ensures ret == if oid in d.objects then OK else ERR_MAP_NODE_NOT_EXIST
      ensures if oid in d.objects then n != null && n in d.index.all && n.key == oid && n.value == d.objects[oid] else n == null
      ensures n != null ==> n.value.oid == oid && Holds(d, n.value)
    {
      hide TreeIs, TotalOrder, Trees, Links, StrCmp, Colls, Holds;
      ShelfIs(d);
      if oid in d.objects {
        ObjectIs(d, oid);
      }
      ret, n := Lookup(d.index, oid, StrCmp, d.objects);
    }

    lemma ValueAt(d: CollNode)
      requires Colls() && Live(d)
      ensures d.cid in Value() && Value()[d.cid] == d.Value() && d.Value().kv == d.pairs && d.Value().objects.Keys == d.objects.Keys
    {}

    lemma ValueKeys()
      requires Colls()
      ensures Value().Keys == colls.Keys
    {}

    /** The collection and the node of the object, as the plain nested map has them. */
    method FindBoth(cid: int, oid: Bytes) returns (ret: int, d: CollNode?, m: Node?<Bytes, ObjectNode>)
      requires Valid()
      ensures ret == if HasObj(Value(), cid, oid) then OK else ERR_MAP_NODE_NOT_EXIST
      ensures if cid in Value() then d != null && d.cid == cid && Live(d) && Value()[cid] == d.Value() else d == null
      ensures if HasObj(Value(), cid, oid) then d != null && m != null && m in d.index.all && m.key == oid else m == null
      ensures m != null ==> m.value.oid == oid && Holds(d, m.value)
    {
      hide Trees, Links, Value, Colls, CollNode.Value, Live, Holds;
      d, m := null, null;
      ValueKeys();
      var n;
      ret, n := FindColl(cid);
      if n == null {
        return;
      }
      d := n.value;
      ValueAt(d);
      ret, m := FindObject(d, oid);
    }

    // ---- operations on maps ----

    method DoOpCollMap(op: TranOp) returns (ret: int)
      requires Valid() && op.kv != null && Usable(op.kv) && op.kv !in Repr
      modifies this`Repr, cnodes, Repr
      ensures Valid() && fresh(Repr - old(Repr))
      ensures Outcome(Value(), ret) == PatchColl(old(Value()), op.cid, old(Pairs(op.kv)))
    {
      hide Usable, Pairs, Patch, Trees, Links, Value, Colls;
      ValueKeys();
      var n;
      ret, n := FindColl(op.cid);
      if n == null {
        return;
      }
      ValueAt(n.value);
      PairsInRepr(n.value);
      UpdatePairs(n.value, op.kv);
    }

    lemma PairsInRepr(d: CollNode)
      requires Links() && Trees() && d in cnodes
      ensures d.kv in Repr && d.kv.all <= Repr
    {
      OwnPairTree(d);
    }

    method DoOpObjMap(op: TranOp) returns (ret: int)
      requires Valid() && op.kv != null && Usable(op.kv) && op.kv !in Repr
      modifies this`Repr, nodes, Repr
      ensures Valid() && fresh(Repr - old(Repr))
      ensures Outcome(Value(), ret) == PatchObj(old(Value()), op.cid, op.oid, old(Pairs(op.kv)))
    {
      hide Usable, Pairs, Patch, Trees, Links, Value, Colls, CollNode.Value, PatchIn;
      var d, m;
      ret, d, m := FindBoth(op.cid, op.oid);
      if m == null {
        return;
      }
      ObjectPairsInRepr(m.value);
      UpdateObjectPairs(d, m.value, op.kv);
    }

    lemma ObjectPairsInRepr(x: ObjectNode)
      requires Links() && Trees() && x in nodes
      ensures x.kv in Repr && x.kv.all <= Repr
    {
      OwnObjectTree(x);
    }

    // ---- writing ----

    /** Only the bytes of an object have changed. */
    twostate lemma DataChanged(x: ObjectNode)
      requires old(Links() && Trees()) && x in nodes && x.pairs == old(x.pairs)
      requires unchanged(this`colls, this`cnodes, this`nodes, this`holder, this`keeper, this`Repr)
      requires forall o: object :: (o in old(cnodes) || o in old(nodes) || o in old(Repr)) && o != x ==> unchanged(o)
      ensures Links() && Trees()
    {
      hide ObjectTrees, PairTrees, Shelves, Index;
      KeptObjectTrees();
      KeptPairTrees();
      KeptShelves();
      KeptIndex();
      TreesIntro();
    }

    lemma TreesIntro()
      requires forall x :: x in nodes ==> x.kv in Repr && x.kv.all <= Repr && ObjectTree(x)
      requires forall d :: d in cnodes ==> d.kv in Repr && d.kv.all <= Repr && PairTree(d)
      requires forall d :: d in cnodes ==> d.index in Repr && d.index.all <= Repr && Shelf(d)
      requires Index()
      ensures Trees()
    {}

    method WriteObject(d: CollNode, x: ObjectNode, offset: nat, bytes: Bytes)
      requires Valid() && Holds(d, x) && offset + |bytes| < INT64_LIMIT
      modifies x`data
      ensures Valid() && x.oid in old(d.Value()).objects
      ensures Value() == old(Value())[d.cid := WriteIn(old(d.Value()), x.oid, offset, bytes)]
    {
      hide Trees, Links, Value, CollNode.Value, CollNode.Valid, WriteAt;
      d.ObjectAt(x);
      NotThings();
      x.Write(offset, bytes);
      DataChanged(x);
      d.OneObject(x);
      OneColl(d.cid);
    }

    lemma NotThings()
      requires Links()
      ensures this !in Things()
    {}

    /** An object has come to a collection. */
    twostate lemma ObjectAdded(d: CollNode, new x: ObjectNode)
      requires old(Links() && Trees()) && d in cnodes && unchanged(this`colls, this`cnodes, this`keeper) && d.pairs == old(d.pairs)
      requires fresh(x) && fresh(x.kv) && Usable(x.kv) && Pairs(x.kv) == x.pairs && x.kv.all == {}
      requires TreeIs(d.index, StrCmp, d.objects)
      requires nodes == old(nodes) + {x} && holder == old(holder)[x.kv := x] && Repr == old(Repr) + d.index.all + {x.kv}
      requires forall o: object :: (o in old(cnodes) || o in old(nodes) || o in old(Repr)) && o != d && o != d.index && o !in old(d.index.all) ==> unchanged(o)
      ensures Links() && Trees()
    {
      hide ObjectTrees, PairTrees, Shelves, Index, Usable, Pairs, TreeIs;
      OldShelf(d);
      KeptObjectTrees();
      KeptPairTrees();
      OtherShelves(d.index);
      KeptIndex();
      OwnShelf(d);
      TreesIntro();
    }

    twostate lemma OldShelf(d: CollNode)
      requires old(Shelves()) && d in old(cnodes)
      ensures old(AtHome(d.index) && d.index in Repr && d.index.all <= Repr)
    {
      assert old(Shelf(d));
    }

    lemma OwnShelf(d: CollNode)
      requires Links() && d in cnodes
      ensures forall e :: e in cnodes && e != d ==> e.index != d.index
    {}

    method NewObject(d: CollNode, oid: Bytes) returns (x: ObjectNode)
      requires Links() && Trees() && d in cnodes && oid !in d.objects
      modifies this`nodes, this`holder, this`Repr, d`objects, d.index, d.index.all
      ensures Links() && Trees() && fresh(Repr - old(Repr)) && fresh(x) && nodes == old(nodes) + {x}
      ensures x.oid == oid && x.coll == d && x.Value() == Obj([], map[]) && d.objects == old(d.objects)[oid := x]
    {
      hide Usable, Pairs, TreeIs, TotalOrder, StrCmp, Trees, Links, CollNode.Value, CollNode.Valid;
      ShelfIs(d);
      NotTrees();
      x := new ObjectNode(oid, d);
      var ret := Put(d.index, oid, x, StrCmp, d.objects);
      d.objects := d.objects[oid := x];
      nodes := nodes + {x};
      holder := holder[x.kv := x];
      Repr := Repr + d.index.all + {x.kv};
      ObjectAdded(d, x);
    }

    method AddObject(d: CollNode, oid: Bytes) returns (x: ObjectNode)
      requires Valid() && Live(d) && oid !in d.objects
      modifies this`nodes, this`holder, this`Repr, d`objects, d.index, d.index.all
      ensures Valid() && fresh(Repr - old(Repr)) && fresh(nodes - old(nodes)) && fresh(x) && x.oid == oid && Holds(d, x)
      ensures d.Value() == old(d.Value()).(objects := old(d.Value()).objects[oid := Obj([], map[])])
      ensures Value() == old(Value())[d.cid := d.Value()]
    {
      hide Trees, Links, Value, CollNode.Value, CollNode.Valid;
      CollIs(d.cid);
      x := NewObject(d, oid);
      d.MoreObjects(x);
      OneColl(d.cid);
    }

    method FindOrAdd(d: CollNode, m: Node?<Bytes, ObjectNode>, oid: Bytes) returns (x: ObjectNode)
      requires Valid() && Live(d) && (if oid in d.Value().objects then m != null && m.value.oid == oid && Holds(d, m.value) else m == null)
      modifies this`nodes, this`holder, this`Repr, d`objects, d.index, d.index.all
      ensures Valid() && fresh(Repr - old(Repr)) && fresh(nodes - old(nodes)) && x.oid == oid && Holds(d, x)
      ensures x in old(nodes) || fresh(x)
      ensures Value() == old(Value())[d.cid := d.Value()] && d.Value() == WithObject(old(d.Value()), oid)
    {
      hide Trees, Links, Value, Colls, CollNode.Value, Live, Holds;
      LiveValue(d);
      if m == null {
        x := AddObject(d, oid);
      } else {
        x := m.value;
        HeldObject(d, x);
      }
    }

    method WriteFound(d: CollNode, m: Node?<Bytes, ObjectNode>, op: TranOp, data: Bytes)
      requires Valid() && Live(d) && op.offset >= 0 && op.offset + |data| < INT64_LIMIT
      requires if op.oid in d.Value().objects then m != null && m.value.oid == op.oid && Holds(d, m.value) else m == null
      modifies this`nodes, this`holder, this`Repr, cnodes, nodes, Repr
      ensures Valid() && fresh(Repr - old(Repr)) && fresh(nodes - old(nodes))
      ensures Value() == old(Value())[d.cid := WriteIn(old(d.Value()), op.oid, op.offset, data)]
    {
      hide Trees, Links, Value, Colls, CollNode.Value, WriteIn, WithObject, Live, Holds;
      LiveShelf(d);
      WriteInWith(d.Value(), op.oid, op.offset, data);
      var x := FindOrAdd(d, m, op.oid);
      WriteObject(d, x, op.offset, data);
    }

    /** The object is looked up, made if it does not exist, and written; a length of 0 only makes it. */
    method DoOpObjWrite(op: TranOp, data: Bytes) returns (ret: int)
      requires Valid() && op.offset >= 0 && op.offset + |data| < INT64_LIMIT
      modifies this`nodes, this`holder, this`Repr, cnodes, nodes, Repr
      ensures Valid() && fresh(Repr - old(Repr)) && fresh(nodes - old(nodes))
      ensures Outcome(Value(), ret) == StoreSpec.Write(old(Value()), op.cid, op.oid, op.offset, data)
    {
      hide Trees, Links, Value, Colls, CollNode.Value, WriteIn, Live, Holds;
      var d, m;
      ret, d, m := FindBoth(op.cid, op.oid);
      if d == null {
        return ERR_COLL_NOT_EXIST;
      }
      WriteFound(d, m, op, data);
      ret := OK;
    }

    lemma LiveShelf(d: CollNode)
      requires Trees() && Live(d)
      ensures d in cnodes && d.index in Repr && d.index.all <= Repr
    {
      ShelfIs(d);
    }

    lemma LiveValue(d: CollNode)
      requires Colls() && Live(d)
      ensures d.cid in Value() && Value()[d.cid] == d.Value() && d.Value().objects.Keys == d.objects.Keys && d.Value().kv == d.pairs
    {
      ValueAt(d);
    }

    lemma HeldObject(d: CollNode, x: ObjectNode)
      requires Holds(d, x)
      ensures x in nodes
    {}

    // ---- removing an object ----

    /** A tree of objects has lost a node. */
    twostate lemma ShelfChanged(d: CollNode)
      requires old(Links() && Trees()) && d in cnodes && d.pairs == old(d.pairs)
      requires unchanged(this`colls, this`cnodes, this`nodes, this`holder, this`keeper, this`Repr)
      requires TreeIs(d.index, StrCmp, d.objects) && d.index.all <= old(d.index.all)
      requires forall o: object :: (o in old(cnodes) || o in old(nodes) || o in old(Repr)) && o != d && o != d.index && o !in old(d.index.all) ==> unchanged(o)
      ensures Links() && Trees()
    {
      hide ObjectTrees, PairTrees, Shelves, Index, Usable, Pairs, TreeIs;
      OldShelf(d);
      KeptObjectTrees();
      KeptPairTrees();
      OtherShelves(d.index);
      KeptIndex();
      OwnShelf(d);
      TreesIntro();
    }

    /** map_remove on the tree of objects of a collection. */
    method TakeObject(d: CollNode, n: Node<Bytes, ObjectNode>)
      requires Links() && Trees() && d in cnodes && n in d.index.all
      modifies d`objects, d.index, d.index.all
      ensures Links() && Trees() && d.index.all == old(d.index.all) - {n} && d.objects == old(d.objects) - {n.key}
    {
      hide TreeIs, TotalOrder, StrCmp, Trees, Links;
      ShelfIs(d);
      NotTrees();
      var ret := Drop(d.index, n, StrCmp, d.objects);
      d.objects := d.objects - {n.key};
      ShelfChanged(d);
    }

    method RemoveObject(d: CollNode, n: Node<Bytes, ObjectNode>)
      requires Valid() && Live(d) && n in d.index.all && Holds(d, n.value) && n.value.oid == n.key
      modifies d`objects, d.index, d.index.all, n.value`pairs, n.value.kv, n.value.kv.all
      ensures Valid() && n.value.kv.node == null
      ensures Value() == old(Value())[d.cid := old(d.Value()).(objects := old(d.Value()).objects - {n.key})]
    {
      hide Trees, Links, Value, CollNode.Value, CollNode.Valid;
      d.OtherObjects(n.value);
      TakeObject(d, n);
      FreeObject(n.value);
      d.FewerObjects(n.key);
      OneColl(d.cid);
    }

    /** `freed` is the object that is freed, with the tree of its pairs. */
    method DoOpObjRemove(op: TranOp) returns (ret: int, ghost freed: ObjectNode?)
      requires Valid()
      modifies cnodes, nodes, Repr
      ensures Valid() && (ret == OK ==> freed != null && freed.oid == op.oid && freed.kv.node == null)
      ensures Outcome(Value(), ret) == RemoveObj(old(Value()), op.cid, op.oid)
    {
      hide Trees, Links, Value, Colls, CollNode.Value, Live, Holds;
      freed := null;
      var d, m;
      ret, d, m := FindBoth(op.cid, op.oid);
      if d == null {
        return ERR_COLL_NOT_EXIST, null;
      }
      LiveValue(d);
      if m == null {
        return ERR_OBJECT_NOT_EXIST, null;
      }
      LiveShelf(d);
      HeldObject(d, m.value);
      ObjectPairsInRepr(m.value);
      RemoveObject(d, m);
      freed := m.value;
      ret := OK;
    }

    // ---- making and removing a collection ----

    twostate lemma CollAdded(new d: CollNode)
      requires old(Links() && Trees()) && unchanged(this`nodes) && fresh(d) && fresh(d.kv) && fresh(d.index)
      requires Usable(d.kv) && Pairs(d.kv) == d.pairs && d.kv.all == {} && TreeIs(d.index, StrCmp, d.objects) && d.index.all == {}
      requires TreeIs(index, IntCmp, colls) && cnodes == old(cnodes) + {d}
      requires holder == old(holder)[d.kv := d] && keeper == old(keeper)[d.index := d]
      requires Repr == old(Repr) + index.all + {d.kv, d.index}
      requires forall o: object :: (o in old(cnodes) || o in old(nodes) || o in old(Repr)) && o != index && o !in old(index.all) ==> unchanged(o)
      ensures Links() && Trees()
    {
      hide ObjectTrees, PairTrees, Shelves, Usable, Pairs, TreeIs, Links;
      LinksAdded(d);
      NotTreesBefore();
      KeptObjectTrees();
      KeptPairTrees();
      KeptShelves();
      TreesIntro();
    }

    twostate lemma NotTreesBefore()
      requires old(Links())
      ensures this !in old(Repr) && (forall e :: e in old(cnodes) ==> e !in old(Repr)) && (forall x :: x in old(nodes) ==> x !in old(Repr))
    {}

    twostate lemma LinksAdded(new d: CollNode)
      requires old(Links()) && unchanged(this`nodes) && fresh(d) && fresh(d.kv) && fresh(d.index) && cnodes == old(cnodes) + {d}
      requires holder == old(holder)[d.kv := d] && keeper == old(keeper)[d.index := d]
      requires Repr == old(Repr) + index.all + {d.kv, d.index}
      ensures Links()
    {}

    lemma IndexInRepr()
      requires Trees()
      ensures index in Repr && index.all <= Repr
    {}

    method NewColl(cid: int) returns (d: CollNode)
      requires Links() && Trees() && cid !in colls
      modifies this, index, index.all
      ensures Links() && Trees() && fresh(Repr - old(Repr)) && nodes == old(nodes) && fresh(d) && cnodes == old(cnodes) + {d}
      ensures d.cid == cid && d.objects == map[] && d.Value() == Coll(map[], map[]) && colls == old(colls)[cid := d]
    {
      hide Usable, Pairs, TreeIs, TotalOrder, IntCmp, Trees, Links, CollNode.Value, CollNode.Valid;
      IndexIs();
      IndexInRepr();
      NotTrees();
      d := new CollNode(cid);
      var ret := Put(index, cid, d, IntCmp, colls);
      colls := colls[cid := d];
      cnodes := cnodes + {d};
      holder := holder[d.kv := d];
      keeper := keeper[d.index := d];
      Repr := Repr + index.all + {d.kv, d.index};
      CollAdded(d);
    }

    method DoOpCollCreate(op: TranOp) returns (ret: int)
      requires Valid()
      modifies this, index, index.all
      ensures Valid() && fresh(Repr - old(Repr)) && nodes == old(nodes) && fresh(cnodes - old(cnodes))
      ensures Outcome(Value(), ret) == Create(old(Value()), op.cid)
      ensures ret == if op.cid in old(Value()) then ERR_COLL_ALREADY_EXIST else OK
      ensures Value() == if ret == OK then old(Value())[op.cid := Coll(map[], map[])] else old(Value())
    {
      hide Trees, Links, Value, CollNode.Value;
      ValueKeys();
      var n;
      ret, n := FindColl(op.cid);
      if ret == OK {
        return ERR_COLL_ALREADY_EXIST;
      }
      var d := NewColl(op.cid);
      OneColl(op.cid);
      ret := OK;
    }

    twostate lemma CollTaken()
      requires old(Links() && Trees()) && unchanged(this`cnodes, this`nodes, this`holder, this`keeper, this`Repr)
      requires TreeIs(index, IntCmp, colls) && index.all <= old(index.all)
      requires forall o: object :: (o in old(cnodes) || o in old(nodes) || o in old(Repr)) && o != index && o !in old(index.all) ==> unchanged(o)
      ensures Links() && Trees()
    {
      hide ObjectTrees, PairTrees, Shelves, Usable, Pairs, TreeIs;
      KeptObjectTrees();
      KeptPairTrees();
      KeptShelves();
      TreesIntro();
    }

    /** The collections that are left are as before. */
    twostate lemma FewerColls(cid: int)
      requires old(Colls()) && colls == old(colls) - {cid} && unchanged(this`cnodes, this`nodes)
      requires forall d :: d in cnodes ==> unchanged(d)
      requires forall x :: x in nodes ==> unchanged(x)
      ensures Colls() && Value() == old(Value()) - {cid}
    {
      hide CollNode.Value, CollNode.Valid;
      forall c | c in colls
        ensures c in old(colls) && colls[c] == old(colls)[c] && colls[c].Valid() && colls[c].cid == c
        ensures colls[c] in cnodes && colls[c].objects.Values <= nodes && colls[c].Value() == old(colls[c].Value())
      {
        var d := old(colls)[c];
        assert d == colls[c] && old(d.Valid()) && d in cnodes && old(d.objects.Values) <= nodes;
        assert unchanged(d);
        forall x | x in d.objects.Values ensures unchanged(x) {
          assert x in nodes;
        }
      }
      assert Colls();
      var v, w := Value(), old(Value());
      forall c | c in v ensures c in w && v[c] == w[c] {
        assert v[c] == colls[c].Value();
      }
    }

    /** map_remove on the tree of collections. */
    method TakeColl(n: Node<int, CollNode>)
      requires Valid() && n in index.all
      modifies this`colls, index, index.all
      ensures Valid() && colls == old(colls) - {n.key} && Value() == old(Value()) - {n.key}
    {
      hide TreeIs, TotalOrder, IntCmp, Trees, Links, Value, Colls;
      IndexIs();
      IndexInRepr();
      NotTrees();
      var ret := Drop(index, n, IntCmp, colls);
      colls := colls - {n.key};
      CollTaken();
      FewerColls(n.key);
    }

    /** A collection that is not in the store any more has changed, with its objects. */
    twostate lemma DeadColl(d: CollNode)
      requires old(Colls()) && unchanged(this`colls, this`cnodes, this`nodes)
      requires forall c :: c in colls ==> colls[c] != d
      requires forall e :: e in cnodes && e != d ==> unchanged(e)
      requires forall x :: x in nodes && x.coll != d ==> unchanged(x)
      ensures Colls() && Value() == old(Value())
    {
      forall c | c in colls ensures colls[c].Valid() && colls[c].Value() == old(colls[c].Value()) {
        var e := old(colls)[c];
        assert e == colls[c] && e in old(cnodes) && old(e.Valid()) && old(e.objects.Values) <= old(nodes);
        assert e != d && e in cnodes;
        assert unchanged(e);
        forall x | x in e.objects.Values ensures unchanged(x) {
          assert x in old(nodes) && x.coll == e;
        }
      }
    }

    /** What the loop of cceph_mem_store_object_node_free_tree keeps: what is left of the objects,
        and that the trees of the others are freed. */
    ghost predicate Freeing(d: CollNode, all: set<ObjectNode>)
      reads this`cnodes, this`nodes, d, d.objects.Values, all
    {
      && d in cnodes && d.Valid() && all <= nodes && d.objects.Values <= all
      && (forall x :: x in all ==> x.coll == d)
      && (forall x :: x in all && x !in d.objects.Values ==> x.pairs == map[])
    }

    method FirstObject(d: CollNode) returns (n: Node?<Bytes, ObjectNode>)
      requires Trees() && d in cnodes
      ensures if d.objects == map[] then n == null && d.index.node == null
        else n != null && n in d.index.all && n.key in d.objects && d.objects[n.key] == n.value
    {
      hide TreeIs, Trees, StrCmp;
      ShelfIs(d);
      n := FirstOf(d.index, StrCmp, d.objects);
    }

    lemma ValuesLess(m: map<Bytes, ObjectNode>, k: Bytes)
      requires k in m
      ensures (m - {k}).Values <= m.Values && m.Values <= (m - {k}).Values + {m[k]}
    {
      forall x | x in m.Values ensures x in (m - {k}).Values || x == m[k] {
        var j :| j in m && m[j] == x;
        assert j != k ==> (m - {k})[j] == x;
      }
      forall x | x in (m - {k}).Values ensures x in m.Values {
        var j :| j in m - {k} && (m - {k})[j] == x;
        assert m[j] == x;
      }
    }

    /** One turn of that loop. */
    method FreeFirst(d: CollNode, n: Node<Bytes, ObjectNode>, ghost all: set<ObjectNode>)
      requires Links() && Trees() && Freeing(d, all) && IsFirst(d, n)
      modifies d`objects, d.index, d.index.all, n.value`pairs, n.value.kv, n.value.kv.all
      ensures Links() && Trees() && Freeing(d, all) && d.objects == old(d.objects) - {n.key}
    {
      hide Links, Trees;
      ValuesLess(d.objects, n.key);
      TakeObject(d, n);
      FreeObject(n.value);
    }

    ghost predicate IsFirst(d: CollNode, n: Node?<Bytes, ObjectNode>)
      reads d, d.index
    {
      if d.objects == map[] then n == null && d.index.node == null
      else n != null && n in d.index.all && n.key in d.objects && d.objects[n.key] == n.value
    }

    lemma NotTrees()
      requires Links()
      ensures this !in Repr && (forall e :: e in cnodes ==> e !in Repr) && (forall x :: x in nodes ==> x !in Repr)
    {}

    lemma FirstValue(d: CollNode, n: Node<Bytes, ObjectNode>, all: set<ObjectNode>)
      requires Freeing(d, all) && IsFirst(d, n)
      ensures n.value in d.objects.Values && n.value in nodes && n.value.coll == d && d in cnodes
    {}

    method FreeTurn(d: CollNode, n: Node<Bytes, ObjectNode>, ghost all: set<ObjectNode>) returns (next: Node?<Bytes, ObjectNode>)
      requires Links() && Trees() && Freeing(d, all) && IsFirst(d, n)
      modifies d`objects, nodes`pairs, Repr
      ensures Links() && Trees() && Freeing(d, all) && IsFirst(d, next) && |d.objects| < |old(d.objects)|
      ensures unchanged(this) && forall x :: x in nodes && x.coll != d ==> unchanged(x)
    {
      hide Links, Trees, Freeing;
      FirstValue(d, n, all);
      LiveTrees(d, n.value);
      NotTrees();
      FreeFirst(d, n, all);
      next := FirstObject(d);
    }

    /** cceph_mem_store_object_node_free_tree */
    method FreeObjects(d: CollNode)
      requires Links() && Trees() && d in cnodes && d.Valid() && d.objects.Values <= nodes
      modifies d`objects, nodes`pairs, Repr
      ensures Links() && Trees() && unchanged(this)
      ensures forall x :: x in nodes && x.coll != d ==> unchanged(x)
      ensures d.index.node == null && forall x :: x in old(d.objects.Values) ==> x.kv.node == null
    {
      hide Links, Trees;
      NotTrees();
      ghost var all := d.objects.Values;
      var n := FirstObject(d);
      while n != null
        invariant unchanged(this) && Links() && Trees() && Freeing(d, all) && IsFirst(d, n)
        invariant forall x :: x in old(nodes) && x.coll != d ==> unchanged(x)
        decreases |d.objects|
      {
        n := FreeTurn(d, n, all);
      }
      AllFreed(d, all);
    }

    lemma AllFreed(d: CollNode, all: set<ObjectNode>)
      requires Trees() && Freeing(d, all) && d.objects == map[]
      ensures forall x :: x in all ==> x.kv.node == null
    {
      forall x | x in all ensures x.kv.node == null {
        assert ObjectTree(x);
        NoPairs(x.kv);
      }
    }

    lemma NoPairs(r: MapRoot)
      requires Usable(r) && Pairs(r) == map[]
      ensures r.node == null
    {}

    /** cceph_mem_store_coll_node_free: all objects and the pairs of the collection are freed. */
    method FreeColl(d: CollNode)
      requires Valid() && d in cnodes && d.Valid() && d.objects.Values <= nodes && forall c :: c in colls ==> colls[c] != d
      modifies d`objects, d`pairs, nodes`pairs, Repr
      ensures Valid() && Value() == old(Value())
      ensures d.index.node == null && d.kv.node == null && forall x :: x in old(d.objects.Values) ==> x.kv.node == null
    {
      hide Links, Trees, CollNode.Value, CollNode.Valid, Value, Colls;
      NotTrees();
      FreeObjects(d);
      PairsInRepr(d);
      OwnPairs(d);
      FreePairs(d);
      DeadColl(d);
    }

    lemma LiveTrees(d: CollNode, x: ObjectNode)
      requires Links() && Trees() && d in cnodes && x in nodes
      ensures d.index in Repr && d.index.all <= Repr && x.kv in Repr && x.kv.all <= Repr
    {
      ShelfIs(d);
      OwnObjectTree(x);
    }

    /** `freed` is the collection that is freed, with the trees of its objects and of its pairs, and
        those of the pairs of each of its objects. */
    method DoOpCollRemove(op: TranOp) returns (ret: int, ghost freed: CollNode?)
      requires Valid()
      modifies this`colls, cnodes, nodes, Repr
      ensures Valid()
      ensures Outcome(Value(), ret) == RemoveColl(old(Value()), op.cid)
      ensures ret == OK ==> freed != null && freed.cid == op.cid && freed.index.node == null && freed.kv.node == null
      ensures ret == OK ==> op.cid in old(colls) && forall x :: x in old(colls[op.cid].objects.Values) ==> x.kv.node == null
    {
      hide Links, Trees, Value, CollNode.Value;
      freed := null;
      ValueKeys();
      IndexInRepr();
      NotTrees();
      var n;
      ret, n := FindColl(op.cid);
      if ret != OK {
        return ERR_COLL_NOT_EXIST, null;
      }
      TakeColl(n);
      FreeColl(n.value);
      freed := n.value;
      ret := OK;
    }

    // ---- transactions ----

    /** What the code asserts of an operation, and of its tree that it is the caller's own. */
    ghost predicate Asserts(op: TranOp)
      reads this`Repr, op.kv, if op.kv != null then op.kv.all else {}
    {
      && (OP_COLL_CREATE <= op.op <= OP_OBJ_REMOVE ==> op.cid >= 0)
      && (op.op == OP_OBJ_TOUCH || op.op == OP_OBJ_WRITE ==> op.offset >= 0 && op.offset + (if op.op == OP_OBJ_WRITE then |op.data| else 0) < INT64_LIMIT)
      && (op.op == OP_COLL_MAP || op.op == OP_OBJ_MAP ==> op.kv != null && Usable(op.kv) && op.kv !in Repr && op.kv.all !! Repr)
    }

    method DoOp(op: TranOp) returns (ret: int)
      requires Valid() && Asserts(op)
      modifies this, cnodes, nodes, Repr
      ensures Valid() && fresh(Repr - old(Repr)) && fresh(nodes - old(nodes)) && fresh(cnodes - old(cnodes))
      ensures Outcome(Value(), ret) == Apply(old(Value()), old(OpOf(op)))
    {
      hide Links, Trees, Colls, Value, Usable, Pairs, Create, RemoveColl, PatchColl, StoreSpec.Write, RemoveObj, PatchObj;
      IndexInRepr();
      NotTrees();
      if op.op == OP_NOOP {
        ret := OK;
      } else if op.op == OP_COLL_CREATE {
        ret := DoOpCollCreate(op);
      } else if op.op == OP_COLL_REMOVE {
        ghost var freed;
        ret, freed := DoOpCollRemove(op);
      } else if op.op == OP_COLL_MAP {
        ret := DoOpCollMap(op);
      } else if op.op == OP_OBJ_TOUCH {
        TouchAnywhere(Value(), op.cid, op.oid, op.offset);
        ret := DoOpObjWrite(op, []);
      } else if op.op == OP_OBJ_WRITE {
        ret := DoOpObjWrite(op, op.data);
      } else if op.op == OP_OBJ_REMOVE {
        ghost var freed;
        ret, freed := DoOpObjRemove(op);
      } else if op.op == OP_OBJ_MAP {
        ret := DoOpObjMap(op);
      } else {
        ret := ERR_UNKNOWN_OS_OP;
      }
    }

    /** The operation can be executed, and it says `val`. */
    ghost predicate Ready(op: TranOp, val: Op)
      reads this`Repr, op.kv, if op.kv != null then op.kv.all else {}
    {
      Asserts(op) && OpOf(op) == val
    }

    /** One turn of the loop. */
    method ExecuteNext(tran: Tran, ghost ops: seq<TranOp>, ghost vals: seq<Op>, i: nat, ghost was: Store) returns (ret: int)
      requires Valid() && tran.Valid() && tran !in Repr && tran.opBuffer !in Repr && tran.Ops() == ops && i < |ops| == |vals|
      requires AllOk(was, vals[..i])
      requires forall j :: i <= j < |vals| && AllOk(was, vals[..j]) ==> Ready(ops[j], vals[j])
      modifies this, cnodes, nodes, Repr
      ensures Valid() && fresh(Repr - old(Repr)) && fresh(nodes - old(nodes)) && fresh(cnodes - old(cnodes))
      ensures tran.Valid() && tran.opBuffer == old(tran.opBuffer) && tran.Ops() == ops
      ensures Outcome(Value(), ret) == Apply(old(Value()), vals[i])
      ensures forall j :: i + 1 <= j < |vals| && AllOk(was, vals[..j]) ==> Ready(ops[j], vals[j])
    {
      hide Links, Trees, Colls, Value, Apply, AllOk, Usable, Pairs;
      var op := tran.GetOp(i);
      ReadyNow(op.value, vals[i]);
      ret := DoOp(op.value);
      forall j | i + 1 <= j < |vals| && AllOk(was, vals[..j]) ensures Ready(ops[j], vals[j]) {
        var o := ops[j];
        assert old(Ready(o, vals[j]));
        if o.op == OP_COLL_MAP || o.op == OP_OBJ_MAP {
          assert unchanged(o.kv);
          assert unchanged(o.kv.all);
        }
      }
    }

    lemma ReadyNow(op: TranOp, val: Op)
      requires Ready(op, val)
      ensures Asserts(op) && OpOf(op) == val
    {}

    /** The operations run in order up to the first that fails; `k` of them are executed. Of `vals`,
        what the operations say when the transaction is submitted, only those need to be ready
        that are executed, or fail. */
    method SubmitTran(tran: Tran, ghost vals: seq<Op>) returns (ret: int, ghost k: nat)
      requires Valid() && tran.Valid() && tran !in Repr && tran.opBuffer !in Repr && |vals| == |tran.Ops()|
      requires forall i :: 0 <= i < |vals| && AllOk(Value(), vals[..i]) ==> Ready(tran.Ops()[i], vals[i])
      modifies this, cnodes, nodes, Repr
      ensures Valid() && fresh(Repr - old(Repr)) && fresh(nodes - old(nodes)) && fresh(cnodes - old(cnodes))
      ensures tran.Valid() && tran.Ops() == old(tran.Ops())
      ensures SubmittedBy(old(Value()), vals, k, Value(), ret)
      ensures Submitted(old(Value()), vals, Value(), ret)
      ensures forall log :: Log(log, old(Value())) ==> Log(log + vals[..k], Value())
    {
      hide Links, Trees, Colls, Value, Apply, AllOk, Final, Usable, Pairs;
      NotTrees();
      ghost var ops, was := tran.Ops(), Value();
      var opCount := tran.GetOpCount();
      ret := OK;
      var i := 0;
      Unexecuted(was, vals);
      forall j | 0 <= j < |vals| && AllOk(was, vals[..j]) ensures Ready(ops[j], vals[j]) {
        var o := ops[j];
        assert old(Ready(o, vals[j]));
        if o.op == OP_COLL_MAP || o.op == OP_OBJ_MAP {
          assert unchanged(o.kv);
          assert unchanged(o.kv.all);
        }
      }
      while i < opCount
        invariant 0 <= i <= opCount == |ops| == |vals| && ret == OK && tran.Valid() && tran.Ops() == ops
        invariant Valid() && fresh(Repr - old(Repr)) && fresh(nodes - old(nodes)) && fresh(cnodes - old(cnodes))
        invariant AllOk(was, vals[..i]) && Value() == Final(was, vals[..i])
        invariant forall j :: i <= j < |vals| && AllOk(was, vals[..j]) ==> Ready(ops[j], vals[j])
      {
        ret := ExecuteNext(tran, ops, vals, i, was);
        Executed(was, vals, i);
        if ret != OK {
          SubmittedLogged(was, vals, i, Value(), ret);
          return ret, i;
        }
        i := i + 1;
      }
      k := i;
      assert vals[..k] == vals;
      SubmittedLogged(was, vals, k, Value(), ret);
    }

    // ---- reading ----

    method ExistColl(cid: int) returns (isExisted: bool)
      requires Valid()
      ensures isExisted <==> cid in Value()
      ensures forall log :: Log(log, Value()) ==> (isExisted <==> Made(log, OfColl(cid)))
    {
      hide Links, Trees, Value, Log, Made;
      StandsLogged(Value(), OfColl(cid));
      ValueKeys();
      var ret, n := FindColl(cid);
      isExisted := n != null;
    }

    /** list_coll: the ids of all collections, ascending. */
    method ListColl() returns (ids: array<int>)
      requires Valid()
      ensures fresh(ids)
      ensures forall i, j :: 0 <= i < j < ids.Length ==> ids[i] < ids[j]
      ensures forall cid :: cid in ids[..] <==> cid in Value()
      ensures forall log, cid :: Log(log, Value()) ==> (cid in ids[..] <==> Made(log, OfColl(cid)))
    {
      hide Links, Trees, Value, TreeIs, Colls, Log, Made;
      CollsLogged(Value());
      ValueKeys();
      IndexIs();
      ids := KeysOf(index, IntCmp, colls);
    }

    method ReadObj(cid: int, oid: Bytes, offset: nat, length: int) returns (ret: int, result: Bytes)
      requires Valid()
      ensures (ret, result) ==
        if cid !in Value() then (ERR_COLL_NOT_EXIST, [])
        else if oid !in Value()[cid].objects then (ERR_OBJECT_NOT_EXIST, [])
        else NarrowRead(Value()[cid].objects[oid].data, offset, length)
    {
      hide Links, Trees, Value, Colls, CollNode.Value, Live, Holds, NarrowRead;
      var d, m;
      ret, d, m := FindBoth(cid, oid);
      if d == null {
        return ERR_COLL_NOT_EXIST, [];
      }
      if m == null {
        return ERR_OBJECT_NOT_EXIST, [];
      }
      HeldValue(d, m.value);
      ret, result := m.value.Read(offset, length);
    }

    lemma HeldValue(d: CollNode, x: ObjectNode)
      requires Holds(d, x)
      ensures x.oid in d.Value().objects && d.Value().objects[x.oid] == x.Value()
    {
      d.ObjectAt(x);
    }

    method ReadCollMap(cid: int, into: MapRoot) returns (ret: int)
      requires Valid() && Usable(into) && into !in Repr && into.all !! Repr
      modifies into, into.all
      ensures Valid() && Value() == old(Value()) && Usable(into) && fresh(into.all - old(into.all))
      ensures ret == if cid in Value() then OK else ERR_COLL_NOT_EXIST
      ensures Pairs(into) == if ret == OK then Patch(old(Pairs(into)), Value()[cid].kv) else old(Pairs(into))
    {
      hide Links, Trees, Value, Colls, CollNode.Value, Live, Usable, Pairs, Patch;
      ValueKeys();
      var n;
      ret, n := FindColl(cid);
      if n == null {
        return ERR_COLL_NOT_EXIST;
      }
      LiveValue(n.value);
      LiveShelf(n.value);
      OwnPairTree(n.value);
      ret := MapUpdate(into, n.value.kv);
    }

    method ReadCollMapKey(cid: int, key: Bytes) returns (ret: int, result: Option<Bytes>)
      requires Valid()
      ensures (ret, result) ==
        if cid !in Value() then (ERR_COLL_NOT_EXIST, None)
        else if key !in Value()[cid].kv then (ERR_MAP_NODE_NOT_EXIST, None)
        else (OK, Some(Value()[cid].kv[key]))
      ensures forall log, value :: Log(log, Value()) ==> (result == Some(value) <==> value != [] && Given(log, OfColl(cid), key, value))
    {
      hide Links, Trees, Value, Colls, CollNode.Value, Live, Usable, Pairs, Log, Given;
      PairsLogged(Value(), OfColl(cid), key);
      ValueKeys();
      var n;
      ret, n := FindColl(cid);
      if n == null {
        return ERR_COLL_NOT_EXIST, None;
      }
      LiveValue(n.value);
      LiveShelf(n.value);
      OwnPairTree(n.value);
      ret, result := ReadKey(n.value.kv, key);
    }

    method ReadObjMap(cid: int, oid: Bytes, into: MapRoot) returns (ret: int)
      requires Valid() && Usable(into) && into !in Repr && into.all !! Repr
      modifies into, into.all
      ensures Valid() && Value() == old(Value()) && Usable(into) && fresh(into.all - old(into.all))
      ensures ret == if HasObj(Value(), cid, oid) then OK else ERR_MAP_NODE_NOT_EXIST
      ensures Pairs(into) == if ret == OK then Patch(old(Pairs(into)), Value()[cid].objects[oid].kv) else old(Pairs(into))
    {
      hide Links, Trees, Value, Colls, CollNode.Value, Live, Holds, Usable, Pairs, Patch;
      var d, m;
      ret, d, m := FindBoth(cid, oid);
      if m == null {
        return;
      }
      HeldObject(d, m.value);
      HeldValue(d, m.value);
      OwnObjectTree(m.value);
      ret := MapUpdate(into, m.value.kv);
    }

    method ReadObjMapKey(cid: int, oid: Bytes, key: Bytes) returns (ret: int, result: Option<Bytes>)
      requires Valid()
      ensures (ret, result) ==
        if cid !in Value() then (ERR_COLL_NOT_EXIST, None)
        else if !HasObj(Value(), cid, oid) || key !in Value()[cid].objects[oid].kv then (ERR_MAP_NODE_NOT_EXIST, None)
        else (OK, Some(Value()[cid].objects[oid].kv[key]))
      ensures forall log, value :: Log(log, Value()) ==> (result == Some(value) <==> value != [] && Given(log, OfObj(cid, oid), key, value))
    {
      hide Links, Trees, Value, Colls, CollNode.Value, Live, Holds, Usable, Pairs, Log, Given;
      PairsLogged(Value(), OfObj(cid, oid), key);
      var d, m;
      ret, d, m := FindBoth(cid, oid);
      if d == null {
        return ERR_COLL_NOT_EXIST, None;
      }
      if m == null {
        return ERR_MAP_NODE_NOT_EXIST, None;
      }
      HeldObject(d, m.value);
      HeldValue(d, m.value);
      OwnObjectTree(m.value);
      ret, result := ReadKey(m.value.kv, key);
    }

    /** cceph_os_map_node_search, and a copy of the value. */
    method ReadKey(r: MapRoot, key: Bytes) returns (ret: int, result: Option<Bytes>)
      requires Usable(r)
      ensures (ret, result) == if key in Pairs(r) then (OK, Some(Pairs(r)[key])) else (ERR_MAP_NODE_NOT_EXIST, None)
    {
      hide Usable, Pairs, TreeIs, StrCmp, TotalOrder;
      TreeIsUsable(r, Pairs(r));
      StrCmpTotal();
      var n;
      ret, n := Lookup(r, key, StrCmp, Pairs(r));
      result := if n == null then None else Some(n.value);
    }
  }
}
