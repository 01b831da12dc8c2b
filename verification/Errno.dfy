/** The result codes of common/errno.h that the modelled functions return. */
module Errno {
  const OK := 0
  const ERR_NOT_ENOUGH_SERVER := -1005
  const ERR_WRONG_CLIENT_ID := -1006
  const ERR_NO_ENOUGH_MEM := -1007
  const ERR_COLL_ALREADY_EXIST := -1008
  const ERR_COLL_NOT_EXIST := -1009
  const ERR_OBJECT_NOT_EXIST := -1011
  const ERR_MAP_NODE_ALREADY_EXIST := -1012
  const ERR_MAP_NODE_NOT_EXIST := -1013
  const ERR_UNKNOWN_OS_OP := -1014
  const ERR_BUFFER_END := -1015
}
