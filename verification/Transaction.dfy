/**
 os/transaction.c: a transaction is a buffer of operation records that grows by a fixed number of
 slots. A builder sets the fields that its operation uses; the others keep what the memory of the
 slot holds.
 */
module Transaction {
  import opened Options
  import opened RbOrder
  import opened RbTree
  import opened OsMap
  import opened OsOps

  const OP_LIST_SIZE: nat := 8

  /** cceph_os_tran_op; the length of a write is the length of its data, and `kv` is the caller's
      tree. */
  datatype TranOp = TranOp(op: int, cid: int, oid: Bytes, offset: int, data: Bytes, kv: Root?<Bytes, Bytes>)

  /** The operation that a record stands for; it has pairs only if it is one on a map. */
  ghost function OpOf(o: TranOp): Op
    reads o.kv, if o.kv != null then o.kv.all else {}
  {
    Op(o.op, o.cid, o.oid, o.offset, o.data,
      if (o.op == OP_COLL_MAP || o.op == OP_OBJ_MAP) && o.kv != null && Usable(o.kv) then Pairs(o.kv) else map[])
  }

  class Tran {
    var opBuffer: array<TranOp>
    var opBufferLength: nat
    var opBufferIndex: nat

    ghost predicate Valid()
      reads this
    {
      opBuffer.Length == opBufferLength && opBufferIndex <= opBufferLength
      && opBufferLength >= OP_LIST_SIZE && opBufferLength % OP_LIST_SIZE == 0
    }

    /** The records in the order in which they were added. */
    ghost function Ops(): seq<TranOp>
      requires Valid()
      reads this, opBuffer
    {
      opBuffer[..opBufferIndex]
    }

    constructor ()
      ensures Valid() && Ops() == [] && fresh(opBuffer)
    {
      opBuffer := new TranOp[OP_LIST_SIZE];
      opBufferLength := OP_LIST_SIZE;
      opBufferIndex := 0;
    }

    method GetOpCount() returns (count: nat)
      requires Valid()
      ensures count == |Ops()|
    {
      count := opBufferIndex;
    }

    /** The record at the index, or none when the index is out of range. */
    method GetOp(index: nat) returns (op: Option<TranOp>)
      requires Valid()
      ensures op == if index < |Ops()| then Some(Ops()[index]) else None
    {
      if index >= opBufferIndex {
        return None;
      }
      op := Some(opBuffer[index]);
    }

    /** A full buffer is replaced by a longer one with the same records. */
    method CheckOpBufferSize()
      requires Valid()
      modifies this
      ensures Valid() && Ops() == old(Ops()) && opBufferIndex < opBufferLength
      ensures opBuffer == old(opBuffer) || fresh(opBuffer)
      ensures old(opBufferIndex < opBufferLength) ==> opBuffer == old(opBuffer)
      ensures opBufferLength == old(if opBufferIndex < opBufferLength then opBufferLength else opBufferLength + OP_LIST_SIZE)
    {
      if opBufferIndex < opBufferLength {
        return;
      }
      var oldOpBuffer, oldOpLength := opBuffer, opBufferLength;
      opBufferLength := opBufferLength + OP_LIST_SIZE;
      opBuffer := new TranOp[opBufferLength];
      forall i | 0 <= i < oldOpLength {
        opBuffer[i] := oldOpBuffer[i];
      }
      assert opBuffer[..oldOpLength] == oldOpBuffer[..oldOpLength];
    }

    /** The next slot is taken, with what its memory holds. */
    method NewOp() returns (i: nat, ghost slot: TranOp)
      requires Valid()
      modifies this
      ensures Valid() && i == opBufferIndex - 1 && Ops() == old(Ops()) + [slot]
      ensures opBuffer == old(opBuffer) || fresh(opBuffer)
    {
      CheckOpBufferSize();
      i := opBufferIndex;
      slot := opBuffer[i];
      opBufferIndex := opBufferIndex + 1;
    }

    method CollCreate(cid: int) returns (ghost slot: TranOp)
      requires Valid() && cid >= 0
      modifies this, opBuffer
      ensures Valid() && Ops() == old(Ops()) + [slot.(op := OP_COLL_CREATE, cid := cid)]
      ensures opBuffer == old(opBuffer) || fresh(opBuffer)
    {
      var i;
      i, slot := NewOp();
      opBuffer[i] := opBuffer[i].(op := OP_COLL_CREATE, cid := cid);
    }

    method CollRemove(cid: int) returns (ghost slot: TranOp)
      requires Valid() && cid >= 0
      modifies this, opBuffer
      ensures Valid() && Ops() == old(Ops()) + [slot.(op := OP_COLL_REMOVE, cid := cid)]
      ensures opBuffer == old(opBuffer) || fresh(opBuffer)
    {
      var i;
      i, slot := NewOp();
      opBuffer[i] := opBuffer[i].(op := OP_COLL_REMOVE, cid := cid);
    }

    method CollMap(cid: int, kv: MapRoot) returns (ghost slot: TranOp)
      requires Valid()
      modifies this, opBuffer
      ensures Valid() && Ops() == old(Ops()) + [slot.(op := OP_COLL_MAP, cid := cid, kv := kv)]
      ensures opBuffer == old(opBuffer) || fresh(opBuffer)
    {
      var i;
      i, slot := NewOp();
      opBuffer[i] := opBuffer[i].(op := OP_COLL_MAP, cid := cid, kv := kv);
    }

    method ObjTouch(cid: int, oid: Bytes) returns (ghost slot: TranOp)
      requires Valid()
      modifies this, opBuffer
      ensures Valid() && Ops() == old(Ops()) + [slot.(op := OP_OBJ_TOUCH, cid := cid, oid := oid)]
      ensures opBuffer == old(opBuffer) || fresh(opBuffer)
    {
      var i;
      i, slot := NewOp();
      opBuffer[i] := opBuffer[i].(op := OP_OBJ_TOUCH, cid := cid, oid := oid);
    }

    method ObjWrite(cid: int, oid: Bytes, offset: int, data: Bytes) returns (ghost slot: TranOp)
      requires Valid() && offset >= 0
      modifies this, opBuffer
      ensures Valid() && Ops() == old(Ops()) + [slot.(op := OP_OBJ_WRITE, cid := cid, oid := oid, offset := offset, data := data)]
      ensures opBuffer == old(opBuffer) || fresh(opBuffer)
    {
      var i;
      i, slot := NewOp();
      opBuffer[i] := opBuffer[i].(op := OP_OBJ_WRITE, cid := cid, oid := oid, offset := offset, data := data);
    }

    method ObjMap(cid: int, oid: Bytes, kv: MapRoot) returns (ghost slot: TranOp)
      requires Valid()
      modifies this, opBuffer
      ensures Valid() && Ops() == old(Ops()) + [slot.(op := OP_OBJ_MAP, cid := cid, oid := oid, kv := kv)]
      ensures opBuffer == old(opBuffer) || fresh(opBuffer)
    {
      var i;
      i, slot := NewOp();
      opBuffer[i] := opBuffer[i].(op := OP_OBJ_MAP, cid := cid, oid := oid, kv := kv);
    }

    method ObjRemove(cid: int, oid: Bytes) returns (ghost slot: TranOp)
      requires Valid()
      modifies this, opBuffer
      ensures Valid() && Ops() == old(Ops()) + [slot.(op := OP_OBJ_REMOVE, cid := cid, oid := oid)]
      ensures opBuffer == old(opBuffer) || fresh(opBuffer)
    {
      var i;
      i, slot := NewOp();
      opBuffer[i] := opBuffer[i].(op := OP_OBJ_REMOVE, cid := cid, oid := oid);
    }
  }
}
