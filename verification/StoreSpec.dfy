/**
 What the object store of os/mem_store.c stands for: a map from collection ids to collections,
 each a key/value map and a map from object ids to objects, each some bytes and a key/value map.
 Operations are functions on such values, and the laws of the store are proved about these.
 */
module StoreSpec {
  import opened RbOrder
  import opened Errno
  import opened KvPatch
  import opened OsOps

  datatype Obj = Obj(data: Bytes, kv: KvMap)
  datatype Coll = Coll(objects: map<Bytes, Obj>, kv: KvMap)
  type Store = map<int, Coll>

  datatype Outcome = Outcome(store: Store, code: int)

  function Max(a: nat, b: nat): nat {
    if a < b then b else a
  }

  ghost function ByteAfter(data: Bytes, offset: nat, bytes: Bytes, i: nat): byte {
    if offset <= i < offset + |bytes| then bytes[i - offset] else if i < |data| then data[i] else 0
  }

  /** The bytes of an object after a write: nothing is written when `bytes` is empty, and what
      lies between the old end and the offset becomes zero. */
  ghost function WriteAt(data: Bytes, offset: nat, bytes: Bytes): (r: Bytes)
    ensures |r| == if bytes == [] then |data| else Max(|data|, offset + |bytes|)
    ensures forall i :: 0 <= i < |r| ==> r[i] == ByteAfter(data, offset, bytes, i)
  {
    if bytes == [] then data else seq(Max(|data|, offset + |bytes|), i requires 0 <= i => ByteAfter(data, offset, bytes, i))
  }

  /** Bytes copied over a buffer that reaches to their end, which holds the data and zeros behind. */
  lemma CopiedIn(data: Bytes, buffer: Bytes, offset: nat, bytes: Bytes)
    requires bytes != [] && |buffer| == Max(|data|, offset + |bytes|)
    requires forall i :: 0 <= i < |buffer| ==> buffer[i] == if i < |data| then data[i] else 0
    ensures buffer[..offset] + bytes + buffer[offset + |bytes|..] == WriteAt(data, offset, bytes)
  {
    var r, w := buffer[..offset] + bytes + buffer[offset + |bytes|..], WriteAt(data, offset, bytes);
    assert |r| == |w|;
    forall i | 0 <= i < |r| ensures r[i] == w[i] {
      assert w[i] == ByteAfter(data, offset, bytes, i);
    }
  }

  /** What a read returns: `length` bytes from the offset, or up to the end when there are fewer
      or when `length` is not positive. */
  ghost function ReadAt(data: Bytes, offset: nat, length: int): (r: Bytes)
    ensures |r| == if |data| <= offset then 0 else if 0 < length < |data| - offset then length else |data| - offset
    ensures forall i :: 0 <= i < |r| ==> r[i] == data[offset + i]
  {
    if |data| <= offset then [] else if 0 < length < |data| - offset then data[offset..offset + length] else data[offset..]
  }

  /** A conversion to int: the lower 32 bits, as a signed number. */
  function Narrow(v: int): (r: int)
    ensures -0x8000_0000 <= r < 0x8000_0000 && (v - r) % 0x1_0000_0000 == 0
    ensures -0x8000_0000 <= v < 0x8000_0000 ==> r == v
    ensures v >= 0 ==> r <= v
  {
    var u := v % 0x1_0000_0000;
    if u < 0x8000_0000 then u else u - 0x1_0000_0000
  }

  /** The number of bytes that a read takes before it is cut at the end of the object. */
  ghost function Asked(size: nat, length: int): int {
    if Narrow(length) <= 0 then Narrow(size) else Narrow(length)
  }

  /** Return code and bytes of a read, whose lengths go through an int. A negative number of bytes
      cannot be allocated. */
  ghost function NarrowRead(data: Bytes, offset: nat, length: int): (int, Bytes) {
    if |data| <= offset then (OK, [])
    else
      var asked := Asked(|data|, length);
      var n := if asked > |data| - offset then Narrow(|data| - offset) else asked;
      if n < 0 then (ERR_NO_ENOUGH_MEM, []) else (OK, data[offset..offset + n])
  }

  /** The read returns what it should exactly if the length is an int where it ends inside the
      object, and elsewhere the number that is asked after narrowing reaches the end. */
  lemma ReadIsExact(data: Bytes, offset: nat, length: int)
    ensures NarrowRead(data, offset, length) == (OK, ReadAt(data, offset, length)) <==>
      (|data| <= offset || (if 0 < length < |data| - offset then length < 0x8000_0000 else Asked(|data|, length) >= |data| - offset))
  {
    var r := ReadAt(data, offset, length);
    if |data| > offset {
      var asked := Asked(|data|, length);
      var n := if asked > |data| - offset then Narrow(|data| - offset) else asked;
      assert n >= 0 ==> |data[offset..offset + n]| == n;
      if n == |r| {
        assert data[offset..offset + n] == r;
      }
    }
  }

  /** So it does for objects and lengths below 2^31. */
  lemma SmallReads(data: Bytes, offset: nat, length: int)
    requires |data| < 0x8000_0000 && -0x8000_0000 <= length < 0x8000_0000
    ensures NarrowRead(data, offset, length) == (OK, ReadAt(data, offset, length))
  {
    ReadIsExact(data, offset, length);
  }

  /** In every case the bytes are those of the object from the offset on, and their number is, up to
      a multiple of 2^32, what was asked, the length of the object, or what is left of it. Only for
      an object of 2^31 bytes or more can there be no memory. */
  lemma ReadIsPart(data: Bytes, offset: nat, length: int)
    requires offset < |data|
    ensures var (code, r) := NarrowRead(data, offset, length);
      if code == OK then
        && |r| <= |data| - offset && r == data[offset..][..|r|]
        && ((length - |r|) % 0x1_0000_0000 == 0 || (|data| - |r|) % 0x1_0000_0000 == 0 || (|data| - offset - |r|) % 0x1_0000_0000 == 0)
      else code == ERR_NO_ENOUGH_MEM && r == [] && |data| >= 0x8000_0000
  {
    hide Narrow;
    assert Narrow(0) == 0;
  }

  ghost predicate HasObj(s: Store, cid: int, oid: Bytes) {
    cid in s && oid in s[cid].objects
  }

  /** A collection after a write; the object is made if it does not exist. */
  ghost function WriteIn(c: Coll, oid: Bytes, offset: nat, bytes: Bytes): Coll {
    var was := if oid in c.objects then c.objects[oid] else Obj([], map[]);
    c.(objects := c.objects[oid := was.(data := WriteAt(was.data, offset, bytes))])
  }

  /** A collection in which the object exists, made empty if it was not there. */
  ghost function WithObject(c: Coll, oid: Bytes): Coll {
    if oid in c.objects then c else c.(objects := c.objects[oid := Obj([], map[])])
  }

  lemma WriteInWith(c: Coll, oid: Bytes, offset: nat, bytes: Bytes)
    ensures WriteIn(WithObject(c, oid), oid, offset, bytes) == WriteIn(c, oid, offset, bytes)
  {}

  ghost function PatchIn(c: Coll, oid: Bytes, patch: KvMap): Coll
    requires oid in c.objects
  {
    var was := c.objects[oid];
    c.(objects := c.objects[oid := was.(kv := Patch(was.kv, patch))])
  }

  ghost function Create(s: Store, cid: int): Outcome {
    if cid in s then Outcome(s, ERR_COLL_ALREADY_EXIST) else Outcome(s[cid := Coll(map[], map[])], OK)
  }

  ghost function RemoveColl(s: Store, cid: int): Outcome {
    if cid !in s then Outcome(s, ERR_COLL_NOT_EXIST) else Outcome(s - {cid}, OK)
  }

  ghost function PatchColl(s: Store, cid: int, patch: KvMap): Outcome {
    if cid !in s then Outcome(s, ERR_MAP_NODE_NOT_EXIST)
    else Outcome(s[cid := s[cid].(kv := Patch(s[cid].kv, patch))], OK)
  }

  ghost function Write(s: Store, cid: int, oid: Bytes, offset: nat, bytes: Bytes): Outcome {
    if cid !in s then Outcome(s, ERR_COLL_NOT_EXIST) else Outcome(s[cid := WriteIn(s[cid], oid, offset, bytes)], OK)
  }

  /** The offset of a write of no bytes does not matter. */
  lemma TouchAnywhere(s: Store, cid: int, oid: Bytes, offset: nat)
    ensures Write(s, cid, oid, offset, []) == Write(s, cid, oid, 0, [])
  {}

  ghost function RemoveObj(s: Store, cid: int, oid: Bytes): Outcome {
    if cid !in s then Outcome(s, ERR_COLL_NOT_EXIST)
    else if oid !in s[cid].objects then Outcome(s, ERR_OBJECT_NOT_EXIST)
    else Outcome(s[cid := s[cid].(objects := s[cid].objects - {oid})], OK)
  }

  ghost function PatchObj(s: Store, cid: int, oid: Bytes, patch: KvMap): Outcome {
    if !HasObj(s, cid, oid) then Outcome(s, ERR_MAP_NODE_NOT_EXIST)
    else Outcome(s[cid := PatchIn(s[cid], oid, patch)], OK)
  }

  /** The offset of a write, which the code asserts not to be negative. */
  ghost function Offset(op: Op): nat {
    if op.offset >= 0 then op.offset else 0
  }

  /** One operation: the new store, and the code that it returns. */
  ghost function Apply(s: Store, op: Op): Outcome {
    if op.op == OP_NOOP then Outcome(s, OK)
    else if op.op == OP_COLL_CREATE then Create(s, op.cid)
    else if op.op == OP_COLL_REMOVE then RemoveColl(s, op.cid)
    else if op.op == OP_COLL_MAP then PatchColl(s, op.cid, op.kv)
    else if op.op == OP_OBJ_TOUCH then Write(s, op.cid, op.oid, 0, [])
    else if op.op == OP_OBJ_WRITE then Write(s, op.cid, op.oid, Offset(op), op.data)
    else if op.op == OP_OBJ_REMOVE then RemoveObj(s, op.cid, op.oid)
    else if op.op == OP_OBJ_MAP then PatchObj(s, op.cid, op.oid, op.kv)
    else Outcome(s, ERR_UNKNOWN_OS_OP)
  }

  // ---- sequences of operations ----

  ghost predicate AllOk(s: Store, ops: seq<Op>)
    decreases |ops|
  {
    ops == [] || (Apply(s, ops[0]).code == OK && AllOk(Apply(s, ops[0]).store, ops[1..]))
  }

  /** The store after all the operations, whatever their codes. */
  ghost function Final(s: Store, ops: seq<Op>): Store
    decreases |ops|
  {
    if ops == [] then s else Final(Apply(s, ops[0]).store, ops[1..])
  }

  lemma {:induction false} FinalAppend(s: Store, a: seq<Op>, b: seq<Op>)
    ensures Final(s, a + b) == Final(Final(s, a), b)
    ensures AllOk(s, a + b) <==> AllOk(s, a) && AllOk(Final(s, a), b)
    decreases |a|
  {
    hide Apply;
    if a == [] {
      assert a + b == b;
    } else {
      assert (a + b)[0] == a[0] && (a + b)[1..] == a[1..] + b;
      FinalAppend(Apply(s, a[0]).store, a[1..], b);
    }
  }

  lemma FinalOne(s: Store, ops: seq<Op>, op: Op)
    ensures Final(s, ops + [op]) == Apply(Final(s, ops), op).store
    ensures AllOk(s, ops + [op]) <==> AllOk(s, ops) && Apply(Final(s, ops), op).code == OK
  {
    hide Apply;
    FinalAppend(s, ops, [op]);
    var f := Apply(Final(s, ops), op).store;
    assert Final(f, []) == f && AllOk(f, []);
  }

  /** An operation with an error code changes nothing. */
  lemma FailureKeepsStore(s: Store, op: Op)
    requires Apply(s, op).code != OK
    ensures Apply(s, op).store == s
  {}

  /** A submission stops at the first error: for each store and transaction there is one number
      of operations to execute, the longest prefix in which none fails. */
  ghost predicate Executes(s: Store, ops: seq<Op>, k: nat) {
    k <= |ops| && AllOk(s, ops[..k]) && (k < |ops| ==> Apply(Final(s, ops[..k]), ops[k]).code != OK)
  }

  ghost predicate SubmittedBy(s: Store, ops: seq<Op>, k: nat, s': Store, code: int) {
    Executes(s, ops, k) && s' == Final(s, ops[..k]) && code == if k < |ops| then Apply(s', ops[k]).code else OK
  }

  /** What a submission makes of the store, and the code it returns. */
  ghost predicate Submitted(s: Store, ops: seq<Op>, s': Store, code: int) {
    exists k: nat :: SubmittedBy(s, ops, k, s', code)
  }

  lemma {:induction false} AllOkPrefix(s: Store, ops: seq<Op>, k: nat, j: nat)
    requires Executes(s, ops, k) && k < j <= |ops|
    ensures !AllOk(s, ops[..j])
  {
    hide Apply;
    FinalOne(s, ops[..k], ops[k]);
    assert ops[..k] + [ops[k]] == ops[..k + 1];
    FinalAppend(s, ops[..k + 1], ops[k + 1..j]);
    assert ops[..k + 1] + ops[k + 1..j] == ops[..j];
  }

  lemma SubmittedOnce(s: Store, ops: seq<Op>, s1: Store, c1: int, s2: Store, c2: int)
    requires Submitted(s, ops, s1, c1) && Submitted(s, ops, s2, c2)
    ensures s1 == s2 && c1 == c2
  {
    hide Apply, AllOk, Final;
    var k1: nat :| SubmittedBy(s, ops, k1, s1, c1);
    var k2: nat :| SubmittedBy(s, ops, k2, s2, c2);
    if k1 < k2 {
      AllOkPrefix(s, ops, k1, k2);
    } else if k2 < k1 {
      AllOkPrefix(s, ops, k2, k1);
    }
  }

  lemma Unexecuted(s: Store, ops: seq<Op>)
    ensures AllOk(s, ops[..0]) && Final(s, ops[..0]) == s
  {}

  /** One operation more: it goes on the executed ones, or it failed and they are all. */
  lemma Executed(s: Store, ops: seq<Op>, i: nat)
    requires i < |ops| && AllOk(s, ops[..i])
    ensures var o := Apply(Final(s, ops[..i]), ops[i]);
      if o.code == OK then AllOk(s, ops[..i + 1]) && Final(s, ops[..i + 1]) == o.store
      else Executes(s, ops, i) && o.store == Final(s, ops[..i])
  {
    assert ops[..i] + [ops[i]] == ops[..i + 1];
    FinalOne(s, ops[..i], ops[i]);
    if Apply(Final(s, ops[..i]), ops[i]).code != OK {
      FailureKeepsStore(Final(s, ops[..i]), ops[i]);
    }
    hide Apply;
  }

  /** The operation that failed and those after it leave no trace: the store is the one that a
      transaction of the executed operations alone would have made, with code OK. */
  lemma SubmittedPrefix(s: Store, ops: seq<Op>, s': Store, code: int)
    requires Submitted(s, ops, s', code)
    ensures exists k: nat :: k <= |ops| && Submitted(s, ops[..k], s', OK) && (code == OK <==> k == |ops|)
  {
    hide Apply, AllOk, Final;
    var k: nat :| SubmittedBy(s, ops, k, s', code);
    assert ops[..k][..k] == ops[..k];
    assert SubmittedBy(s, ops[..k], k, s', OK);
  }

  // ---- stores that can be reached ----

  ghost predicate Reachable(s: Store) {
    exists ops :: AllOk(map[], ops) && s == Final(map[], ops)
  }

  lemma SubmittedReachable(s: Store, ops: seq<Op>, s': Store, code: int)
    requires Reachable(s) && Submitted(s, ops, s', code)
    ensures Reachable(s')
  {
    hide Apply, AllOk, Final;
    var before :| AllOk(map[], before) && s == Final(map[], before);
    var k: nat :| SubmittedBy(s, ops, k, s', code);
    FinalAppend(map[], before, ops[..k]);
  }

  /** No map of the store holds an empty value. */
  ghost predicate NoEmptyIn(s: Store) {
    forall c :: c in s ==> NoEmptyInColl(s[c])
  }

  ghost predicate NoEmptyInColl(c: Coll) {
    NoEmptyValue(c.kv) && forall o :: o in c.objects ==> NoEmptyValue(c.objects[o].kv)
  }

  lemma ApplyNoEmpty(s: Store, op: Op)
    requires NoEmptyIn(s)
    ensures NoEmptyIn(Apply(s, op).store)
  {
    var s' := Apply(s, op).store;
    forall c | c in s' ensures NoEmptyInColl(s'[c]) {
      if c == op.cid && c in s {
        CollNoEmpty(s, op);
      } else {
        hide Patch;
      }
    }
  }

  lemma CollNoEmpty(s: Store, op: Op)
    requires op.cid in s && NoEmptyInColl(s[op.cid]) && op.cid in Apply(s, op).store
    ensures NoEmptyInColl(Apply(s, op).store[op.cid])
  {
    hide Patch, WriteAt;
    PatchKeeps(s[op.cid].kv, op.kv);
    if op.oid in s[op.cid].objects {
      PatchKeeps(s[op.cid].objects[op.oid].kv, op.kv);
    }
  }

  lemma {:induction false} FinalNoEmpty(s: Store, ops: seq<Op>)
    requires NoEmptyIn(s)
    ensures NoEmptyIn(Final(s, ops))
    decreases |ops|
  {
    hide Apply, NoEmptyIn;
    if ops != [] {
      ApplyNoEmpty(s, ops[0]);
      FinalNoEmpty(Apply(s, ops[0]).store, ops[1..]);
    }
  }

  /** Reading a map of a reachable store into an empty map copies it, and reading it into any
      map only overrides: no key is lost. */
  lemma ReadIsCopy(s: Store, cid: int, oid: Bytes, into: KvMap)
    requires Reachable(s) && cid in s
    ensures NoEmptyIn(s)
    ensures Patch(map[], s[cid].kv) == s[cid].kv && Patch(into, s[cid].kv) == into + s[cid].kv
    ensures HasObj(s, cid, oid) ==>
      var kv := s[cid].objects[oid].kv; Patch(map[], kv) == kv && Patch(into, kv) == into + kv
  {
    hide Patch, Apply, Final;
    var ops :| AllOk(map[], ops) && s == Final(map[], ops);
    FinalNoEmpty(map[], ops);
    PatchEmpty(s[cid].kv);
    PatchKeeps(into, s[cid].kv);
    if HasObj(s, cid, oid) {
      PatchEmpty(s[cid].objects[oid].kv);
      PatchKeeps(into, s[cid].objects[oid].kv);
    }
  }
}
