/** The operation codes of os/types.h, and what an operation of a transaction says. */
module OsOps {
  import opened RbOrder
  import opened KvPatch

  const OP_NOOP := 0
  const OP_COLL_CREATE := 1
  const OP_COLL_REMOVE := 2
  const OP_COLL_MAP := 3
  const OP_OBJ_TOUCH := 4
  const OP_OBJ_WRITE := 5
  const OP_OBJ_MAP := 6
  const OP_OBJ_REMOVE := 7

  /** The fields as values; an operation uses those that its code needs. */
  datatype Op = Op(op: int, cid: int, oid: Bytes, offset: int, data: Bytes, kv: KvMap)
}
