/**
 What the store of os/mem_store.c holds, told from the operations that were executed on it: which
 collections and objects exist, what each key of their maps has, and what code the next operation
 gives. Nothing here speaks of how one operation works.
 */
module StoreHistory {
  import opened Options
  import opened RbOrder
  import opened Errno
  import opened KvPatch
  import opened OsOps
  import opened StoreSpec

  /** A collection, or an object in one: what has a map of pairs. */
  datatype Owner = OfColl(cid: int) | OfObj(cid: int, oid: Bytes)

  ghost predicate Stands(s: Store, w: Owner) {
    w.cid in s && (w.OfObj? ==> w.oid in s[w.cid].objects)
  }

  /** The map of a collection or of an object; nothing has none. */
  ghost function KvOf(s: Store, w: Owner): KvMap {
    if !Stands(s, w) then map[] else if w.OfColl? then s[w.cid].kv else s[w.cid].objects[w.oid].kv
  }

  ghost predicate HasPair(s: Store, w: Owner, key: Bytes, value: Bytes) {
    key in KvOf(s, w) && KvOf(s, w)[key] == value
  }

  ghost predicate Makes(op: Op, w: Owner) {
    op.cid == w.cid && match w
      case OfColl(_) => op.op == OP_COLL_CREATE
      case OfObj(_, oid) => op.oid == oid && (op.op == OP_OBJ_TOUCH || op.op == OP_OBJ_WRITE)
  }

  /** An object goes with its collection. */
  ghost predicate Ends(op: Op, w: Owner) {
    op.cid == w.cid && (op.op == OP_COLL_REMOVE || (w.OfObj? && op.op == OP_OBJ_REMOVE && op.oid == w.oid))
  }

  /** The operation patches the map of the owner. */
  ghost predicate Patches(op: Op, w: Owner) {
    op.cid == w.cid && match w
      case OfColl(_) => op.op == OP_COLL_MAP
      case OfObj(_, oid) => op.op == OP_OBJ_MAP && op.oid == oid
  }

  ghost predicate Names(op: Op, w: Owner, key: Bytes) {
    Patches(op, w) && key in op.kv
  }

  /** Operation `i` made the owner, or found it there, and none has ended it since. */
  ghost predicate MadeAt(ops: seq<Op>, i: nat, w: Owner) {
    i < |ops| && Makes(ops[i], w) && forall j :: i < j < |ops| ==> !Ends(ops[j], w)
  }

  ghost predicate Made(ops: seq<Op>, w: Owner) {
    exists i: nat :: MadeAt(ops, i, w)
  }

  /** Operation `i` is the last that named the key, and none has ended the owner since. */
  ghost predicate NamedAt(ops: seq<Op>, i: nat, w: Owner, key: Bytes) {
    i < |ops| && Names(ops[i], w, key) && forall j :: i < j < |ops| ==> !Names(ops[j], w, key) && !Ends(ops[j], w)
  }

  /** The last operation that named the key gave it the value. */
  ghost predicate Given(ops: seq<Op>, w: Owner, key: Bytes, value: Bytes) {
    exists i: nat :: NamedAt(ops, i, w, key) && ops[i].kv[key] == value
  }

  ghost predicate WritesTo(op: Op, w: Owner) {
    w.OfObj? && op.op == OP_OBJ_WRITE && op.cid == w.cid && op.oid == w.oid
  }

  /** The operation writes to the object, and the bytes reach beyond place `i`. */
  ghost predicate Reaches(op: Op, w: Owner, i: nat) {
    WritesTo(op, w) && op.data != [] && i < Offset(op) + |op.data|
  }

  ghost predicate Covers(op: Op, w: Owner, i: nat) {
    Reaches(op, w, i) && Offset(op) <= i
  }

  /** What the operation puts at place `i`. */
  ghost function ByteOf(op: Op, w: Owner, i: nat): byte
    requires Covers(op, w, i)
  {
    op.data[i - Offset(op)]
  }

  ghost predicate ReachedAt(ops: seq<Op>, k: nat, w: Owner, i: nat) {
    k < |ops| && Reaches(ops[k], w, i) && forall j :: k < j < |ops| ==> !Ends(ops[j], w)
  }

  ghost predicate Reached(ops: seq<Op>, w: Owner, i: nat) {
    exists k: nat :: ReachedAt(ops, k, w, i)
  }

  /** Operation `k` is the last that wrote to place `i`, and none has ended the object since. */
  ghost predicate CoveredAt(ops: seq<Op>, k: nat, w: Owner, i: nat) {
    k < |ops| && Covers(ops[k], w, i) && forall j :: k < j < |ops| ==> !Covers(ops[j], w, i) && !Ends(ops[j], w)
  }

  ghost predicate Covered(ops: seq<Op>, w: Owner, i: nat) {
    exists k: nat :: CoveredAt(ops, k, w, i)
  }

  ghost predicate Wrote(ops: seq<Op>, w: Owner, i: nat, b: byte) {
    exists k: nat :: CoveredAt(ops, k, w, i) && ByteOf(ops[k], w, i) == b
  }

  /** The bytes of an object; nothing has none. */
  ghost function DataOf(s: Store, w: Owner): Bytes {
    if w.OfObj? && Stands(s, w) then s[w.cid].objects[w.oid].data else []
  }

  ghost predicate HasByte(s: Store, w: Owner, i: nat, b: byte) {
    i < |DataOf(s, w)| && DataOf(s, w)[i] == b
  }

  /** The store is what these operations, none of which failed, have made of a new one. */
  ghost predicate Log(ops: seq<Op>, s: Store) {
    AllOk(map[], ops) && s == Final(map[], ops)
  }

  // ---- one operation more ----

  lemma MadeMore(ops: seq<Op>, op: Op, w: Owner)
    ensures Made(ops + [op], w) <==> Makes(op, w) || (Made(ops, w) && !Ends(op, w))
  {
    hide Makes, Ends;
    var more, n := ops + [op], |ops|;
    assert more[n] == op;
    if Makes(op, w) {
      assert MadeAt(more, n, w);
    }
    if i: nat :| MadeAt(ops, i, w) && !Ends(op, w) {
      assert MadeAt(more, i, w);
    }
    if i: nat :| MadeAt(more, i, w) && i < n {
      assert forall j :: i < j < n ==> more[j] == ops[j];
      assert MadeAt(ops, i, w);
    }
  }

  lemma GivenMore(ops: seq<Op>, op: Op, w: Owner, key: Bytes, value: Bytes)
    ensures Given(ops + [op], w, key, value) <==>
      if Names(op, w, key) then op.kv[key] == value else Given(ops, w, key, value) && !Ends(op, w)
  {
    hide Patches, Ends;
    var more, n := ops + [op], |ops|;
    assert more[n] == op;
    if Names(op, w, key) {
      assert NamedAt(more, n, w, key);
    } else if i: nat :| NamedAt(ops, i, w, key) && ops[i].kv[key] == value && !Ends(op, w) {
      assert NamedAt(more, i, w, key);
    }
    if i: nat :| NamedAt(more, i, w, key) && more[i].kv[key] == value && i < n {
      assert forall j :: i < j < n ==> more[j] == ops[j];
      assert NamedAt(ops, i, w, key);
    }
  }

  lemma ReachedMore(ops: seq<Op>, op: Op, w: Owner, i: nat)
    ensures Reached(ops + [op], w, i) <==> Reaches(op, w, i) || (Reached(ops, w, i) && !Ends(op, w))
  {
    hide Reaches, Ends;
    var more, n := ops + [op], |ops|;
    assert more[n] == op;
    if Reaches(op, w, i) {
      assert ReachedAt(more, n, w, i);
    }
    if k: nat :| ReachedAt(ops, k, w, i) && !Ends(op, w) {
      assert ReachedAt(more, k, w, i);
    }
    if k: nat :| ReachedAt(more, k, w, i) && k < n {
      assert forall j :: k < j < n ==> more[j] == ops[j];
      assert ReachedAt(ops, k, w, i);
    }
  }

  lemma CoveredMore(ops: seq<Op>, op: Op, w: Owner, i: nat)
    ensures Covered(ops + [op], w, i) <==> Covers(op, w, i) || (Covered(ops, w, i) && !Ends(op, w))
  {
    hide Covers, Ends;
    var more, n := ops + [op], |ops|;
    assert more[n] == op;
    if Covers(op, w, i) {
      assert CoveredAt(more, n, w, i);
    } else if k: nat :| CoveredAt(ops, k, w, i) && !Ends(op, w) {
      assert CoveredAt(more, k, w, i);
    }
    if k: nat :| CoveredAt(more, k, w, i) && k < n {
      assert forall j :: k < j < n ==> more[j] == ops[j];
      assert CoveredAt(ops, k, w, i);
    }
  }

  lemma WroteMore(ops: seq<Op>, op: Op, w: Owner, i: nat, b: byte)
    ensures Wrote(ops + [op], w, i, b) <==>
      if Covers(op, w, i) then ByteOf(op, w, i) == b else Wrote(ops, w, i, b) && !Ends(op, w)
  {
    hide Covers, Ends, ByteOf;
    var more, n := ops + [op], |ops|;
    assert more[n] == op;
    if Covers(op, w, i) {
      assert CoveredAt(more, n, w, i);
    } else if k: nat :| CoveredAt(ops, k, w, i) && ByteOf(ops[k], w, i) == b && !Ends(op, w) {
      assert CoveredAt(more, k, w, i);
    }
    if k: nat :| CoveredAt(more, k, w, i) && ByteOf(more[k], w, i) == b && k < n {
      assert forall j :: k < j < n ==> more[j] == ops[j];
      assert CoveredAt(ops, k, w, i);
    }
  }

  lemma DataNext(s: Store, op: Op, w: Owner)
    requires Apply(s, op).code == OK
    ensures DataOf(Apply(s, op).store, w) == if Ends(op, w) then []
      else if WritesTo(op, w) then WriteAt(DataOf(s, w), Offset(op), op.data) else DataOf(s, w)
  {
    hide Patch, WriteAt;
    WritesNothing(DataOf(s, w));
  }

  lemma WritesNothing(data: Bytes)
    ensures WriteAt(data, 0, []) == data
  {}

  lemma ByteNext(s: Store, op: Op, w: Owner, i: nat, b: byte)
    requires Apply(s, op).code == OK
    ensures HasByte(Apply(s, op).store, w, i, b) <==>
      if Covers(op, w, i) then ByteOf(op, w, i) == b
      else if i < |DataOf(s, w)| then HasByte(s, w, i, b) && !Ends(op, w) else Reaches(op, w, i) && b == 0
    ensures i < |DataOf(Apply(s, op).store, w)| <==> Reaches(op, w, i) || (i < |DataOf(s, w)| && !Ends(op, w))
  {
    hide Apply, DataOf;
    DataNext(s, op, w);
  }

  lemma StandsNext(s: Store, op: Op, w: Owner)
    requires Apply(s, op).code == OK
    ensures Stands(Apply(s, op).store, w) <==> Makes(op, w) || (Stands(s, w) && !Ends(op, w))
  {
    hide Patch, WriteAt;
  }

  lemma KvNext(s: Store, op: Op, w: Owner)
    requires Apply(s, op).code == OK
    ensures KvOf(Apply(s, op).store, w) == if Ends(op, w) then map[]
      else if Patches(op, w) then Patch(KvOf(s, w), op.kv) else KvOf(s, w)
  {
    hide Patch, WriteAt;
  }

  lemma PairNext(s: Store, op: Op, w: Owner, key: Bytes, value: Bytes)
    requires Apply(s, op).code == OK
    ensures HasPair(Apply(s, op).store, w, key, value) <==>
      if Names(op, w, key) then value != [] && op.kv[key] == value else HasPair(s, w, key, value) && !Ends(op, w)
  {
    hide Apply, KvOf;
    KvNext(s, op, w);
  }

  // ---- the laws ----

  /** The collections and objects of a store are those that were made and not ended since. */
  lemma {:induction false} Existence(ops: seq<Op>, w: Owner)
    requires AllOk(map[], ops)
    ensures Stands(Final(map[], ops), w) <==> Made(ops, w)
    decreases |ops|
  {
    hide Apply, Stands, Makes, Ends;
    if ops == [] {
      NothingAtFirst(w);
    } else {
      var n := |ops| - 1;
      assert ops == ops[..n] + [ops[n]];
      FinalOne(map[], ops[..n], ops[n]);
      Existence(ops[..n], w);
      StandsNext(Final(map[], ops[..n]), ops[n], w);
      MadeMore(ops[..n], ops[n], w);
    }
  }

  lemma NothingAtFirst(w: Owner)
    ensures !Stands(map[], w)
  {}

  /** The value of a key, in the map of a collection or of an object, is the one that the last
      patch to name the key gave it since the owner was made. The key is absent if that value is
      empty, or if no patch has named it. */
  lemma {:induction false} PairsGiven(ops: seq<Op>, w: Owner, key: Bytes, value: Bytes)
    requires AllOk(map[], ops)
    ensures HasPair(Final(map[], ops), w, key, value) <==> value != [] && Given(ops, w, key, value)
    decreases |ops|
  {
    hide Apply, KvOf, Patches, Ends;
    if ops == [] {
      NoPairAtFirst(w);
    } else {
      var n := |ops| - 1;
      assert ops == ops[..n] + [ops[n]];
      FinalOne(map[], ops[..n], ops[n]);
      PairsGiven(ops[..n], w, key, value);
      PairNext(Final(map[], ops[..n]), ops[n], w, key, value);
      GivenMore(ops[..n], ops[n], w, key, value);
    }
  }

  lemma NoPairAtFirst(w: Owner)
    ensures KvOf(map[], w) == map[]
  {}

  /** An object is as long as the writes to it reach since it was made. */
  lemma {:induction false} LengthReached(ops: seq<Op>, w: Owner, i: nat)
    requires AllOk(map[], ops)
    ensures i < |DataOf(Final(map[], ops), w)| <==> Reached(ops, w, i)
    decreases |ops|
  {
    hide Apply, DataOf, Reaches, Ends;
    if ops == [] {
      NoByteAtFirst(w);
    } else {
      var n := |ops| - 1;
      assert ops == ops[..n] + [ops[n]];
      FinalOne(map[], ops[..n], ops[n]);
      LengthReached(ops[..n], w, i);
      ByteNext(Final(map[], ops[..n]), ops[n], w, i, 0);
      ReachedMore(ops[..n], ops[n], w, i);
    }
  }

  /** Each of its bytes is the one that was written there last since then, or zero where nothing
      was written. */
  lemma {:induction false} BytesWritten(ops: seq<Op>, w: Owner, i: nat, b: byte)
    requires AllOk(map[], ops)
    ensures HasByte(Final(map[], ops), w, i, b) <==>
      if Covered(ops, w, i) then Wrote(ops, w, i, b) else Reached(ops, w, i) && b == 0
    decreases |ops|
  {
    hide Apply, DataOf, Covers, Reaches, Ends, Covered, Wrote, Reached;
    if ops == [] {
      NoByteAtFirst(w);
      NoWriteAtFirst(w, i);
    } else {
      var n := |ops| - 1;
      assert ops == ops[..n] + [ops[n]];
      FinalOne(map[], ops[..n], ops[n]);
      BytesWritten(ops[..n], w, i, b);
      LengthReached(ops[..n], w, i);
      CoversReach(ops[..n], ops[n], w, i);
      ByteNext(Final(map[], ops[..n]), ops[n], w, i, b);
      CoveredMore(ops[..n], ops[n], w, i);
      WroteMore(ops[..n], ops[n], w, i, b);
      ReachedMore(ops[..n], ops[n], w, i);
    }
  }

  lemma CoversReach(ops: seq<Op>, op: Op, w: Owner, i: nat)
    ensures Covered(ops, w, i) ==> Reached(ops, w, i)
    ensures Covers(op, w, i) ==> Reaches(op, w, i)
    ensures Reaches(op, w, i) ==> !Ends(op, w)
  {
    if k: nat :| CoveredAt(ops, k, w, i) {
      assert ReachedAt(ops, k, w, i);
    }
  }

  lemma NoWriteAtFirst(w: Owner, i: nat)
    ensures !Covered([], w, i) && !Reached([], w, i)
  {}

  lemma NoByteAtFirst(w: Owner)
    ensures DataOf(map[], w) == []
  {}

  /** The code of the next operation, from which collections and objects exist. */
  lemma Codes(ops: seq<Op>, op: Op)
    requires AllOk(map[], ops)
    ensures var coll, obj, code := Made(ops, OfColl(op.cid)), Made(ops, OfObj(op.cid, op.oid)), Apply(Final(map[], ops), op).code;
      && (op.op == OP_NOOP ==> code == OK)
      && (op.op == OP_COLL_CREATE ==> code == if coll then ERR_COLL_ALREADY_EXIST else OK)
      && (op.op == OP_COLL_REMOVE ==> code == if coll then OK else ERR_COLL_NOT_EXIST)
      && (op.op == OP_COLL_MAP ==> code == if coll then OK else ERR_MAP_NODE_NOT_EXIST)
      && (op.op in {OP_OBJ_TOUCH, OP_OBJ_WRITE} ==> code == if coll then OK else ERR_COLL_NOT_EXIST)
      && (op.op == OP_OBJ_REMOVE ==> code == if obj then OK else if coll then ERR_OBJECT_NOT_EXIST else ERR_COLL_NOT_EXIST)
      && (op.op == OP_OBJ_MAP ==> code == if obj then OK else ERR_MAP_NODE_NOT_EXIST)
      && (op.op < OP_NOOP || op.op > OP_OBJ_REMOVE ==> code == ERR_UNKNOWN_OS_OP)
  {
    hide Made, AllOk, Final;
    Existence(ops, OfColl(op.cid));
    Existence(ops, OfObj(op.cid, op.oid));
  }

  // ---- for all histories of a store ----

  lemma StandsLogged(s: Store, w: Owner)
    ensures forall log :: Log(log, s) ==> (Stands(s, w) <==> Made(log, w))
  {
    hide AllOk, Final, Stands, Made;
    forall log | Log(log, s) ensures Stands(s, w) <==> Made(log, w) {
      Existence(log, w);
    }
  }

  lemma CollsLogged(s: Store)
    ensures forall log, cid :: Log(log, s) ==> (cid in s <==> Made(log, OfColl(cid)))
  {
    hide AllOk, Final, Made;
    forall log, cid | Log(log, s) ensures cid in s <==> Made(log, OfColl(cid)) {
      Existence(log, OfColl(cid));
    }
  }

  /** What a map has at a key. */
  ghost function ValueOf(s: Store, w: Owner, key: Bytes): Option<Bytes> {
    if key in KvOf(s, w) then Some(KvOf(s, w)[key]) else None
  }

  lemma PairsLogged(s: Store, w: Owner, key: Bytes)
    ensures forall log, value :: Log(log, s) ==> (ValueOf(s, w, key) == Some(value) <==> value != [] && Given(log, w, key, value))
  {
    hide AllOk, Final, KvOf, Given;
    forall log, value | Log(log, s) ensures ValueOf(s, w, key) == Some(value) <==> value != [] && Given(log, w, key, value) {
      PairsGiven(log, w, key, value);
    }
  }

  /** A submission adds the operations that it executes to every history of the store. */
  lemma SubmittedLogged(s: Store, ops: seq<Op>, k: nat, s': Store, code: int)
    requires SubmittedBy(s, ops, k, s', code)
    ensures forall log :: Log(log, s) ==> Log(log + ops[..k], s')
  {
    hide Apply, AllOk, Final;
    forall log | Log(log, s) ensures Log(log + ops[..k], s') {
      FinalAppend(map[], log, ops[..k]);
    }
  }
}
