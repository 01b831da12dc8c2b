/**
 common/buffer.c: a byte sequence in a list of nodes of 4096 bytes, to which bytes are appended
 and which readers read from the front.
 */
module Buffer {
  import opened RbOrder
  import opened Errno

  const NODE_LENGTH: nat := 4096

  /** The part of a byte sequence that node `i` holds. */
  ghost function Chunk(content: Bytes, i: nat): Bytes
    requires NODE_LENGTH * i <= |content|
  {
    content[NODE_LENGTH * i..if NODE_LENGTH * (i + 1) < |content| then NODE_LENGTH * (i + 1) else |content|]
  }

  /** One more piece goes into the last chunk and leaves the others alone. */
  lemma ChunkAppend(content: Bytes, piece: Bytes, last: nat, i: nat)
    requires i <= last && NODE_LENGTH * last <= |content| && |content| + |piece| <= NODE_LENGTH * (last + 1)
    ensures Chunk(content + piece, i) == if i < last then Chunk(content, i) else Chunk(content, i) + piece
  {}

  lemma ChunkPiece(content: Bytes, i: nat, from: nat, to: nat)
    requires NODE_LENGTH * i <= |content| && from <= to <= |Chunk(content, i)|
    ensures Chunk(content, i)[from..to] == content[NODE_LENGTH * i + from..NODE_LENGTH * i + to]
  {
    assert forall k :: from <= k < to ==> Chunk(content, i)[k] == content[NODE_LENGTH * i + k];
  }

  lemma EmptyChunk(content: Bytes, i: nat)
    requires |content| == NODE_LENGTH * i
    ensures Chunk(content, i) == []
  {}

  class Node {
    const data: array<byte>
    ghost const place: nat      // which node of its list it is
    var ptr: nat                // where the next byte goes
    var next: Node?
    ghost var bytes: Bytes      // what has been written

    ghost predicate Valid()
      reads this`ptr, this`bytes, data
    {
      data.Length == NODE_LENGTH && ptr <= NODE_LENGTH && bytes == data[..ptr]
    }

    constructor (ghost place: nat)
      ensures Valid() && fresh(data) && this.place == place && ptr == 0 && next == null && bytes == []
    {
      data := new byte[NODE_LENGTH];
      this.place := place;
      ptr := 0;
      next := null;
      bytes := [];
    }

    /** memcpy to the write position. */
    method Put(piece: Bytes)
      requires Valid() && ptr + |piece| <= NODE_LENGTH
      modifies this`ptr, this`bytes, data
      ensures Valid() && bytes == old(bytes) + piece && ptr == old(ptr) + |piece|
    {
      forall i | 0 <= i < |piece| {
        data[ptr + i] := piece[i];
      }
      assert data[..ptr] == old(data[..ptr]);
      assert data[ptr..ptr + |piece|] == piece;
      ptr := ptr + |piece|;
      bytes := bytes + piece;
      assert data[..ptr] == data[..old(ptr)] + data[old(ptr)..ptr];
    }

    method Get(from: nat, length: nat) returns (piece: Bytes)
      requires Valid() && from + length <= ptr
      ensures piece == bytes[from..from + length]
    {
      piece := data[from..from + length];
    }
  }

  class Buffer {
    var head: Node
    var current: Node
    var length: nat
    var offset: nat
    ghost var nodes: seq<Node>
    ghost var arrays: set<array<byte>>
    ghost var content: Bytes

    ghost predicate NodeOk(i: nat)
      requires i < |nodes| && NODE_LENGTH * i <= |content|
      reads this, nodes[i], nodes[i].data
    {
      var n := nodes[i];
      && n.place == i && n.Valid() && n.bytes == Chunk(content, i) && n.data in arrays
      && n.next == if i + 1 < |nodes| then nodes[i + 1] else null
    }

    /** The list holds the content, each node before the last one full. */
    ghost predicate Linked()
      reads this, nodes, arrays
    {
      && nodes != [] && head == nodes[0] && current == nodes[|nodes| - 1]
      && length == NODE_LENGTH * |nodes| && offset == |content| <= length
      && NODE_LENGTH * (|nodes| - 1) <= |content|
      && (forall i {:trigger NodeOk(i)} :: 0 <= i < |nodes| ==> nodes[i].data in arrays && NodeOk(i))
      && (forall i, j :: 0 <= i < j < |nodes| ==> nodes[i].data != nodes[j].data)
    }

    /** And no node but an only one is empty. */
    ghost predicate Valid()
      reads this, nodes, arrays
    {
      Linked() && (|nodes| > 1 ==> NODE_LENGTH * (|nodes| - 1) < |content|)
    }

    constructor ()
      ensures Valid() && content == [] && fresh(nodes) && fresh(arrays)
    {
      var node := new Node(0);
      head := node;
      current := node;
      length := NODE_LENGTH;
      offset := 0;
      nodes := [node];
      arrays := {node.data};
      content := [];
    }

    /** cceph_buffer_append, when the current node is full: a new one goes behind it. */
    method AddNode()
      requires Linked() && offset == length
      modifies this, current`next
      ensures Linked() && fresh(current) && fresh(arrays - old(arrays)) && nodes == old(nodes) + [current]
      ensures content == old(content) && current.ptr == 0
    {
      assert NodeOk(|nodes| - 1);
      LinkNode();
      NodeAdded();
    }

    method LinkNode()
      requires nodes != [] && current == nodes[|nodes| - 1]
      modifies this, current`next
      ensures NewNode(old(nodes), old(arrays)) && fresh(current) && fresh(current.data)
      ensures old(current).next == current && length == old(length) + NODE_LENGTH
      ensures head == old(head) && content == old(content) && offset == old(offset)
    {
      var node := new Node(|nodes|);
      current.next := node;
      current := node;
      length := length + NODE_LENGTH;
      nodes := nodes + [node];
      arrays := arrays + {node.data};
    }

    ghost predicate NewNode(ns: seq<Node>, oldArrays: set<array<byte>>)
      reads this, current, current.data
    {
      && nodes == ns + [current] && arrays == oldArrays + {current.data}
      && current.place == |ns| && current.Valid() && current.ptr == 0 && current.next == null && current.bytes == []
    }

    twostate lemma NodeAdded()
      requires old(Linked()) && old(offset == length)
      requires NewNode(old(nodes), old(arrays)) && fresh(current) && fresh(current.data)
      requires old(current).next == current && length == old(length) + NODE_LENGTH
      requires head == old(head) && content == old(content) && offset == old(offset)
      requires forall n: Node :: n in old(nodes) ==> unchanged(n`ptr, n`bytes, n.data) && (n != old(current) ==> unchanged(n))
      ensures Linked()
    {
      hide Node.Valid, Chunk;
      var last := |old(nodes)| - 1;
      forall i | 0 <= i <= last ensures nodes[i].data in arrays && NodeOk(i) {
        assert old(NodeOk(i));
      }
      EmptyChunk(content, last + 1);
      assert NodeOk(last + 1);
    }

    method PutCurrent(piece: Bytes)
      requires Linked() && current.ptr + |piece| <= NODE_LENGTH
      modifies this`offset, this`content, current, arrays
      ensures Linked() && content == old(content) + piece && current.ptr == old(current.ptr) + |piece|
    {
      ghost var last := |nodes| - 1;
      assert NodeOk(last);
      current.Put(piece);
      offset := offset + |piece|;
      content := content + piece;
      PieceAdded(piece);
    }

    twostate lemma PieceAdded(piece: Bytes)
      requires old(Linked()) && old(current.ptr) + |piece| <= NODE_LENGTH
      requires unchanged(this`nodes, this`head, this`current, this`length, this`arrays) && current.next == old(current.next)
      requires current.Valid() && current.bytes == old(current.bytes) + piece
      requires offset == old(offset) + |piece| && content == old(content) + piece
      requires forall i :: 0 <= i < |nodes| - 1 ==> unchanged(nodes[i], nodes[i].data)
      ensures Linked()
    {
      var last := |nodes| - 1;
      assert old(NodeOk(last));
      assert |old(content)| == NODE_LENGTH * last + old(current.ptr);
      hide Node.Valid, Chunk;
      forall i | 0 <= i <= last ensures nodes[i].data in arrays && NodeOk(i) {
        assert old(NodeOk(i));
        ChunkAppend(old(content), piece, last, i);
      }
    }

    /** One turn of the loop: as much as the current node takes, or a new one when it is full. */
    method AppendSome(data: Bytes) returns (copySize: nat)
      requires Valid() && |data| > 0
      modifies this, nodes, arrays
      ensures Valid() && 0 < copySize <= |data| && content == old(content) + data[..copySize]
      ensures fresh(set n | n in nodes && n !in old(nodes)) && fresh(arrays - old(arrays))
    {
      assert NodeOk(|nodes| - 1);
      hide NodeOk;
      var nodeEmptySize := NODE_LENGTH - current.ptr;
      if nodeEmptySize == 0 {
        AddNode();
        nodeEmptySize := NODE_LENGTH;
      }
      copySize := if |data| < nodeEmptySize then |data| else nodeEmptySize;
      PutCurrent(data[..copySize]);
    }

    /** cceph_buffer_append */
    method Append(data: Bytes)
      requires Valid() && |data| > 0
      modifies this, nodes, arrays
      ensures Valid() && content == old(content) + data
      ensures fresh(set n | n in nodes && n !in old(nodes)) && fresh(arrays - old(arrays))
    {
      hide Linked;
      var done := 0;
      while done < |data|
        invariant 0 <= done <= |data| && Valid() && content == old(content) + data[..done]
        invariant fresh(set n | n in nodes && n !in old(nodes)) && fresh(arrays - old(arrays))
      {
        var copySize := AppendSome(data[done..]);
        assert data[..done + copySize] == data[..done] + data[done..][..copySize];
        done := done + copySize;
      }
    }

    /** Where node `i` ends, and what comes after it. */
    lemma Layout(i: nat)
      requires Valid() && i < |nodes|
      ensures nodes[i].Valid() && nodes[i].bytes == Chunk(content, i) && nodes[i].data in arrays
      ensures nodes[i].next == if i + 1 < |nodes| then nodes[i + 1] else null
      ensures i + 1 < |nodes| ==> nodes[i].ptr == NODE_LENGTH && NODE_LENGTH * (i + 1) < |content|
      ensures i + 1 == |nodes| ==> NODE_LENGTH * i + nodes[i].ptr == |content|
      ensures content != [] ==> nodes[i].ptr > 0
    {
      assert NodeOk(i);
    }

    /** cceph_buffer_flat: the whole content, node by node. */
    method Flat() returns (data: Bytes, dataLength: nat)
      requires Valid()
      ensures data == content && dataLength == |content|
    {
      if offset == 0 {
        return [], 0;
      }
      data := [];
      ghost var i := 0;
      var node: Node? := head;
      while node != null
        invariant 0 <= i <= |nodes| && node == (if i < |nodes| then nodes[i] else null)
        invariant data == if i < |nodes| then content[..NODE_LENGTH * i] else content
        decreases |nodes| - i
      {
        Layout(i);
        hide Linked, NodeOk;
        var piece := node.Get(0, node.ptr);
        assert piece == Chunk(content, i);
        data := data + piece;
        node := node.next;
        i := i + 1;
      }
      dataLength := offset;
    }
  }

  class Reader {
    const buffer: Buffer
    var node: Node?
    var ptr: nat             // from the node's first byte
    ghost var place: nat     // which node it is

    /** How many bytes have been read. */
    ghost function Pos(): nat
      reads this, buffer
    {
      if node == null then |buffer.content| else NODE_LENGTH * place + ptr
    }

    /** The reader stands before a byte that is left, or has no node any more; or nothing was
        written yet. */
    ghost predicate Valid()
      reads this, buffer, buffer.nodes, buffer.arrays
    {
      && buffer.Valid()
      && (node != null ==> place < |buffer.nodes| && node == buffer.nodes[place])
      && (if buffer.content == [] then node != null && place == 0 && ptr == 0 else node != null ==> ptr < node.ptr)
    }

    constructor (buffer: Buffer)
      requires buffer.Valid()
      ensures Valid() && this.buffer == buffer && Pos() == 0
    {
      this.buffer := buffer;
      node := buffer.head;
      ptr := 0;
      place := 0;
      new;
      buffer.Layout(0);
    }

    /** What the node and the next one hold of the content. */
    lemma Standing()
      requires Valid()
      ensures Pos() <= |buffer.content| && (buffer.content != [] ==> (node == null <==> Pos() == |buffer.content|))
      ensures node != null ==>
        && node.Valid() && node.ptr == |node.bytes| && node.bytes == Chunk(buffer.content, place)
        && (node.next == null ==> NODE_LENGTH * place + node.ptr == |buffer.content|)
        && (node.next != null ==> place + 1 < |buffer.nodes| && node.next == buffer.nodes[place + 1])
        && (node.next != null ==> node.ptr == NODE_LENGTH && node.next.ptr > 0 && buffer.content != [])
    {
      if node != null {
        buffer.Layout(place);
        if place + 1 < |buffer.nodes| {
          buffer.Layout(place + 1);
        }
      }
    }

    /** The assertion that a turn of the loop makes progress holds exactly if something was
        written to the buffer. */
    lemma MakesProgress(length: nat)
      requires Valid() && node != null && length > 0
      ensures (if length < node.ptr - ptr then length else node.ptr - ptr) > 0 <==> buffer.content != []
    {
      Standing();
    }

    /** One turn of the loop in cceph_buffer_reader_read. */
    method ReadSome(length: nat) returns (piece: Bytes)
      requires Valid() && node != null && length > 0 && buffer.content != []
      modifies this
      ensures Valid() && 0 < |piece| <= length
      ensures Pos() == old(Pos()) + |piece| <= |buffer.content|
      ensures piece == buffer.content[old(Pos())..Pos()]
    {
      Standing();
      hide Buffer.Linked, Node.Valid, Chunk;
      ghost var i := place;
      var nodeLeft := node.ptr - ptr;
      var readLength := if length < nodeLeft then length else nodeLeft;
      assert readLength > 0;
      piece := node.Get(ptr, readLength);
      ChunkPiece(buffer.content, place, ptr, ptr + readLength);
      ptr := ptr + readLength;
      if ptr == node.ptr {
        node := node.next;
        ptr := 0;
        place := place + 1;
      }
    }

    /** cceph_buffer_reader_read: `data` is what the call has copied, all that is left when there
        is not enough. */
    method Read(length: nat) returns (ret: int, data: Bytes)
      requires Valid() && length > 0 && buffer.content != []
      modifies this
      ensures Valid()
      ensures var left := |buffer.content| - old(Pos());
        ret == (if length <= left then OK else ERR_BUFFER_END)
        && Pos() == old(Pos()) + (if length <= left then length else left)
      ensures old(Pos()) <= Pos() <= |buffer.content| && data == buffer.content[old(Pos())..Pos()]
    {
      Standing();
      data := [];
      while |data| < length && node != null
        invariant Valid() && |data| <= length
        invariant Pos() == old(Pos()) + |data| <= |buffer.content|
        invariant data == buffer.content[old(Pos())..Pos()]
        decreases length - |data|
      {
        hide Valid;
        var piece := ReadSome(length - |data|);
        data := data + piece;
      }
      Standing();
      ret := if |data| == length then OK else ERR_BUFFER_END;
    }
  }
}
