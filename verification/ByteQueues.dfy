/** ByteQueue: a linked list of buffers, followed by bytes of the caller that are not yet copied. */
module ByteQueues {
  import opened Bytes

  const MAX_AUTO_NODE_SIZE := 16 * 1024

  /** A BufferedTransformation that bytes are handed to: only what it receives matters here. */
  class Sink {
    var received: seq<Byte>

    constructor ()
      ensures received == []
    {
      received := [];
    }

    method ChannelPut(s: array<Byte>, at: nat, length: nat)
      requires at + length <= s.Length
      modifies this
      ensures received == old(received) + s[at..at + length]
    {
      received := received + s[at..at + length];
    }
  }

  class ByteQueueNode {
    const buf: array<Byte>
    var head: nat
    var tail: nat
    var next: ByteQueueNode?

    ghost predicate Valid()
      reads this`head, this`tail
    {
      head <= tail <= buf.Length && 0 < buf.Length
    }

    ghost function Contents(): seq<Byte>
      requires Valid()
      reads this`head, this`tail, buf
    {
      buf[head..tail]
    }

    lemma Bounds()
      requires Valid()
      ensures head <= tail <= buf.Length && 0 < buf.Length && |Contents()| == tail - head
    {
    }

    constructor (maxSize: nat)
      requires 0 < maxSize
      ensures Valid() && Contents() == [] && buf.Length == maxSize && tail == 0 && next == null && fresh(buf)
    {
      buf := new Byte[maxSize](_ => 0);
      head, tail, next := 0, 0, null;
    }

    predicate UsedUp()
      reads this
    {
      head == buf.Length
    }

    method Clear()
      modifies this`head, this`tail
      ensures head == 0 && tail == 0
    {
      head, tail := 0, 0;
    }

    /** As much of the string as still fits. Bytes already in place are not copied. */
    method Put(s: array<Byte>, at: nat, length: nat) returns (l: nat)
      requires Valid() && at + length <= s.Length && (s == buf ==> at == tail)
      modifies this`tail, buf
      ensures Valid() && l == Min(length, buf.Length - old(tail)) && tail == old(tail) + l
      ensures Contents() == old(Contents()) + old(s[at..at + l])
    {
      hide Overwritten;
      l := Min(length, buf.Length - tail);
      ghost var before := buf[..];
      ghost var added := s[at..at + l];
      if s != buf {
        Memcpy(buf, tail, s[at..at + l]);
        OverwrittenFrom(before, head, tail, added);
      } else {
        SliceJoin(buf[..], head, tail, tail + l);
      }
      tail := tail + l;
    }

    method Get() returns (outByte: Byte, len: nat)
      requires Valid()
      modifies this`head
      ensures Valid() && head == old(head) + len && len == if old(Contents()) == [] then 0 else 1
      ensures len == 1 ==> old(Contents()) == [outByte] + Contents()
      ensures len == 0 ==> Contents() == old(Contents())
    {
      if head == tail {
        return 0, 0;
      }
      outByte := buf[head];
      head := head + 1;
      len := 1;
    }

    method TransferTo(target: Sink, transferMax: nat) returns (len: nat)
      requires Valid()
      modifies this`head, target
      ensures Valid() && len == Min(transferMax, |old(Contents())|)
      ensures target.received == old(target.received) + old(Contents())[..len] && Contents() == old(Contents())[len..]
    {
      len := Min(transferMax, tail - head);
      assert Contents()[..len] == buf[head..head + len] && Contents()[len..] == buf[head + len..tail];
      target.ChannelPut(buf, head, len);
      head := head + len;
    }

    /** Bytes put back before the front, as many as there is room for: the last ones of the string. */
    method PutBack(s: array<Byte>, at: nat, length: nat) returns (len: nat)
      requires Valid() && at + length <= s.Length && s != buf
      modifies this`head, buf
      ensures Valid() && len == Min(length, old(head)) && head == old(head) - len
      ensures Contents() == s[at + length - len..at + length] + old(Contents())
    {
      hide Overwritten;
      len := Min(length, head);
      ghost var before := buf[..];
      ghost var given := s[at + length - len..at + length];
      Memcpy(buf, head - len, s[at + length - len..at + length]);
      OverwrittenSlice(before, head - len, given, head, tail);
      SliceJoin(buf[..], head - len, head, tail);
      head := head - len;
    }
  }

  ghost function Buffers(nodes: seq<ByteQueueNode>): set<array<Byte>> {
    set n | n in nodes :: n.buf
  }

  /** No two nodes are the same or share a buffer. */
  ghost predicate Separate(nodes: seq<ByteQueueNode>) {
    forall i, j :: 0 <= i < j < |nodes| ==> nodes[i] != nodes[j] && nodes[i].buf != nodes[j].buf
  }

  /** Changing one node leaves every other alone. */
  lemma SeparateFrom(nodes: seq<ByteQueueNode>, k: nat)
    requires Separate(nodes) && k < |nodes|
    ensures forall i {:trigger nodes[i]} :: 0 <= i < |nodes| && i != k ==> nodes[i] != nodes[k] && nodes[i].buf != nodes[k].buf
    ensures nodes[k].buf in Buffers(nodes)
  {
  }

  lemma SeparateAppend(nodes: seq<ByteQueueNode>, node: ByteQueueNode)
    requires Separate(nodes) && forall i {:trigger nodes[i]} :: 0 <= i < |nodes| ==> nodes[i] != node && nodes[i].buf != node.buf
    ensures Separate(nodes + [node]) && Separate([node] + nodes)
    ensures Buffers(nodes + [node]) == Buffers(nodes) + {node.buf} == Buffers([node] + nodes)
  {
  }

  lemma SeparateRest(nodes: seq<ByteQueueNode>)
    requires Separate(nodes) && nodes != []
    ensures Separate(nodes[1..]) && Buffers(nodes) == Buffers(nodes[1..]) + {nodes[0].buf}
    ensures nodes[0] !in nodes[1..] && nodes[0].buf !in Buffers(nodes[1..])
  {
    assert nodes == [nodes[0]] + nodes[1..];
  }

  /** The nodes are linked in order, share nothing, and all but the last are filled to the end. */
  ghost predicate Chain(nodes: seq<ByteQueueNode>)
    reads nodes
  {
    |nodes| > 0 && nodes[|nodes| - 1].next == null && Separate(nodes) &&
    (forall i {:trigger nodes[i]} :: 0 <= i < |nodes| ==> nodes[i].Valid()) &&
    (forall i {:trigger nodes[i].next} :: 0 <= i < |nodes| - 1 ==> nodes[i].next == nodes[i + 1]) &&
    (forall i {:trigger nodes[i]} :: 0 <= i < |nodes| - 1 ==> nodes[i].tail == nodes[i].buf.Length)
  }

  /** What each node holds. */
  ghost predicate Holds(nodes: seq<ByteQueueNode>, parts: seq<seq<Byte>>)
    requires forall i {:trigger nodes[i]} :: 0 <= i < |nodes| ==> nodes[i].Valid()
    reads nodes, Buffers(nodes)
  {
    |parts| == |nodes| && forall i {:trigger nodes[i]} {:trigger parts[i]} :: 0 <= i < |nodes| ==> parts[i] == nodes[i].Contents()
  }

  ghost predicate Avoids(nodes: seq<ByteQueueNode>, s: array<Byte>) {
    forall i {:trigger nodes[i]} :: 0 <= i < |nodes| ==> nodes[i].buf != s
  }

  lemma AvoidsPrepend(node: ByteQueueNode, nodes: seq<ByteQueueNode>, s: array<Byte>)
    requires Avoids(nodes, s) && node.buf != s
    ensures Avoids([node] + nodes, s)
  {
    var all := [node] + nodes;
    forall i | 0 <= i < |all| ensures all[i].buf != s {
      if i > 0 { assert all[i] == nodes[i - 1]; }
    }
  }

  lemma ChainPrepend(node: ByteQueueNode, nodes: seq<ByteQueueNode>)
    requires Chain(nodes) && node.Valid() && node.next == nodes[0] && node.tail == node.buf.Length
    requires forall i {:trigger nodes[i]} :: 0 <= i < |nodes| ==> nodes[i] != node && nodes[i].buf != node.buf
    ensures Chain([node] + nodes) && Buffers([node] + nodes) == Buffers(nodes) + {node.buf}
  {
    hide Separate, ByteQueueNode.Valid;
    SeparateAppend(nodes, node);
    var all := [node] + nodes;
    forall i | 0 <= i < |all| ensures all[i].Valid() {
      if i > 0 { assert all[i] == nodes[i - 1]; }
    }
    forall i | 0 <= i < |all| - 1 ensures all[i].next == all[i + 1] && all[i].tail == all[i].buf.Length {
      if i > 0 { assert all[i] == nodes[i - 1]; }
    }
  }

  lemma ChainAppend(nodes: seq<ByteQueueNode>, node: ByteQueueNode)
    requires |nodes| > 0 && Separate(nodes) && node.Valid() && node.next == null
    requires forall i {:trigger nodes[i]} :: 0 <= i < |nodes| ==>
               nodes[i] != node && nodes[i].buf != node.buf && nodes[i].Valid() && nodes[i].tail == nodes[i].buf.Length
    requires forall i {:trigger nodes[i].next} :: 0 <= i < |nodes| ==> nodes[i].next == (nodes + [node])[i + 1]
    ensures Chain(nodes + [node]) && Buffers(nodes + [node]) == Buffers(nodes) + {node.buf}
  {
    hide Separate, ByteQueueNode.Valid;
    SeparateAppend(nodes, node);
  }

  lemma HoldsAppend(nodes: seq<ByteQueueNode>, node: ByteQueueNode, parts: seq<seq<Byte>>)
    requires node.Valid() && (forall i {:trigger nodes[i]} :: 0 <= i < |nodes| ==> nodes[i].Valid()) && Holds(nodes, parts)
    requires node.Contents() == []
    ensures forall i {:trigger (nodes + [node])[i]} :: 0 <= i < |nodes| + 1 ==> (nodes + [node])[i].Valid()
    ensures Holds(nodes + [node], parts + [[]])
  {
    hide ByteQueueNode.Valid, ByteQueueNode.Contents;
  }

  lemma AvoidsAppend(nodes: seq<ByteQueueNode>, node: ByteQueueNode, s: array<Byte>)
    requires Avoids(nodes, s) && node.buf != s
    ensures Avoids(nodes + [node], s)
  {
  }

  lemma HoldsPrepend(node: ByteQueueNode, nodes: seq<ByteQueueNode>, parts: seq<seq<Byte>>)
    requires node.Valid() && (forall i {:trigger nodes[i]} :: 0 <= i < |nodes| ==> nodes[i].Valid()) && Holds(nodes, parts)
    ensures forall i {:trigger ([node] + nodes)[i]} :: 0 <= i < |nodes| + 1 ==> ([node] + nodes)[i].Valid()
    ensures Holds([node] + nodes, [node.Contents()] + parts)
  {
    hide ByteQueueNode.Valid, ByteQueueNode.Contents;
    var all := [node] + nodes;
    forall i | 0 <= i < |all| ensures all[i].Valid() && ([node.Contents()] + parts)[i] == all[i].Contents() {
      if i > 0 { assert all[i] == nodes[i - 1]; }
    }
  }

  datatype UndoResult = Undone | InvalidArgument

  class ByteQueue {
    var autoNodeSize: bool
    var nodeSize: nat
    var first: ByteQueueNode
    var last: ByteQueueNode
    var lazyString: array<Byte>
    var lazyAt: nat
    var lazyLength: nat

    ghost var nodes: seq<ByteQueueNode>
    ghost var parts: seq<seq<Byte>>

    /** The list as a whole, apart from the rule that a used-up front node is removed or reset. */
    ghost predicate Listed()
      reads this, nodes, Buffers(nodes)
    {
      Chain(nodes) && Holds(nodes, parts) && first == nodes[0] && last == nodes[|nodes| - 1] && 0 < nodeSize &&
      lazyAt + lazyLength <= lazyString.Length && Foreign(lazyString)
    }

    ghost predicate Valid()
      reads this, nodes, Buffers(nodes)
    {
      Listed() && first.head < first.buf.Length
    }

    twostate predicate LastKept()
      reads this
    {
      last == old(last) || (fresh(last) && fresh(last.buf))
    }

    /** Nodes are never taken from elsewhere. */
    twostate predicate OnlyFreshNodes()
      reads this
    {
      forall i {:trigger nodes[i]} :: 0 <= i < |nodes| ==> nodes[i] in old(nodes) || (fresh(nodes[i]) && fresh(nodes[i].buf))
    }

    /** A string the caller may pass: the space at the end of the queue itself, or memory that is not the queue's. */
    ghost predicate Foreign(s: array<Byte>)
      reads this`nodes
    {
      Avoids(nodes, s)
    }

    ghost predicate Source(s: array<Byte>, at: nat, length: nat)
      reads this`nodes, this`last, last
    {
      at + length <= s.Length && ((s == last.buf && at == last.tail) || Foreign(s))
    }

    ghost function Lazy(): seq<Byte>
      requires lazyAt + lazyLength <= lazyString.Length
      reads this`lazyString, this`lazyAt, this`lazyLength, lazyString
    {
      lazyString[lazyAt..lazyAt + lazyLength]
    }

    /** The queue as the sequence of bytes it stands for. */
    ghost function Contents(): (s: seq<Byte>)
      requires lazyAt + lazyLength <= lazyString.Length
      reads this, lazyString
      ensures |s| >= lazyLength
    {
      Joined(parts) + Lazy()
    }

    constructor (nodeSize: nat)
      ensures Valid() && Contents() == [] && lazyLength == 0 && fresh(lazyString)
      ensures |nodes| == 1 && fresh(nodes[0]) && fresh(nodes[0].buf)
    {
      hide Joined, ByteQueueNode.Valid, ByteQueueNode.Contents;
      autoNodeSize := nodeSize == 0;
      var size := if nodeSize == 0 then 256 else nodeSize;
      this.nodeSize := size;
      var node := new ByteQueueNode(size);
      first, last := node, node;
      nodes, parts := [node], [[]];
      lazyString := new Byte[0];
      lazyAt, lazyLength := 0, 0;
      new;
      JoinedSingle<Byte>([]);
    }

    /** A new empty node after the last one. */
    method AppendNode(maxSize: nat)
      requires Listed() && 0 < maxSize && last.tail == last.buf.Length
      modifies this`last, this`nodes, this`parts, last`next
      ensures Listed() && fresh(last) && fresh(last.buf) && nodes == old(nodes) + [last] && parts == old(parts) + [[]]
      ensures last.buf.Length == maxSize && last.tail == 0
    {
      hide Joined, Separate, Buffers, ByteQueueNode.Valid, ByteQueueNode.Contents;
      SeparateFrom(nodes, |nodes| - 1);
      var node := new ByteQueueNode(maxSize);
      ghost var before := nodes;
      last.next := node;
      ChainAppend(before, node);
      HoldsAppend(before, node, parts);
      AvoidsAppend(before, node, lazyString);
      last := node;
      nodes, parts := nodes + [node], parts + [[]];
    }

    lemma LastBounds()
      requires Listed()
      ensures last.head <= last.tail <= last.buf.Length && |nodes| == |parts| > 0 && last == nodes[|nodes| - 1]
    {
    }

    lemma SourceAtEnd(s: array<Byte>, at: nat, length: nat)
      requires Listed() && Source(s, at, length)
      ensures at + length <= s.Length && (s == last.buf ==> at == last.tail)
    {
    }

    /** What fits goes into the last node. */
    method PutLast(s: array<Byte>, at: nat, length: nat) returns (len: nat)
      requires Listed() && Source(s, at, length)
      modifies this`parts, last`tail, last.buf
      ensures Listed() && len == Min(length, last.buf.Length - old(last.tail)) && last.tail == old(last.tail) + len
      ensures |parts| == old(|parts|) && Joined(parts) == old(Joined(parts)) + old(s[at..at + len])
    {
      hide Joined, Separate, Buffers, ByteQueueNode.Valid, ByteQueueNode.Contents, Avoids;
      SeparateFrom(nodes, |nodes| - 1);
      last.Bounds();
      SourceAtEnd(s, at, length);
      ghost var added := s[at..at + Min(length, last.buf.Length - last.tail)];
      JoinedLastChanged(parts, added);
      len := last.Put(s, at, length);
      parts := parts[|nodes| - 1 := parts[|nodes| - 1] + added];
    }

    /** Node sizes double, for a queue that chooses them itself, up to the limit or the length at hand. */
    method GrowNodeSize(length: nat)
      requires 0 < nodeSize
      modifies this`nodeSize
      ensures 0 < nodeSize
    {
      if autoNodeSize && nodeSize < MAX_AUTO_NODE_SIZE {
        nodeSize := nodeSize * 2;
        while nodeSize < length && nodeSize < MAX_AUTO_NODE_SIZE
          invariant 0 < nodeSize
        {
          nodeSize := nodeSize * 2;
        }
      }
    }

    /** The rest of a string in a new node, which is made large enough for it. */
    method PutInNextNode(s: array<Byte>, from: nat, left: nat) returns (len: nat)
      requires Valid() && from + left <= s.Length && Foreign(s) && 0 < left && last.tail == last.buf.Length
      modifies this`last, this`nodes, this`parts, this`nodeSize, last`next
      ensures Valid() && len == left && nodes == old(nodes) + [last] && fresh(last) && fresh(last.buf)
      ensures Joined(parts) == old(Joined(parts)) + s[from..from + left]
    {
      hide Joined, Separate, Buffers, ByteQueueNode.Valid, ByteQueueNode.Contents, Avoids;
      GrowNodeSize(left);
      JoinedAppend(parts, [[]]);
      JoinedSingle<Byte>([]);
      NothingAdded(Joined(parts));
      ghost var before := nodes;
      AppendNode(if nodeSize < left then left else nodeSize);
      AvoidsAppend(before, last, s);
      len := PutLast(s, from, left);
    }

    /** Put2 when no lazy bytes are pending. */
    method PutInNodes(s: array<Byte>, at: nat, length: nat)
      requires Valid() && Source(s, at, length)
      modifies this`last, this`nodes, this`parts, this`nodeSize, last`tail, last`next, last.buf
      ensures Valid() && OnlyFreshNodes() && LastKept() && Joined(parts) == old(Joined(parts)) + old(s[at..at + length])
    {
      hide Joined, Separate, Buffers, ByteQueueNode.Valid, ByteQueueNode.Contents, Chain, Holds;
      ghost var start, whole := Joined(parts), s[at..at + length];
      var from, left := at, length;
      LastBounds();
      var len := PutLast(s, from, left);
      ghost var rest := whole[len..];
      InTwoParts(start, whole, len);
      while len < left
        invariant Valid() && OnlyFreshNodes() && LastKept() && from + left == at + length && len <= left
        invariant len < left ==> last == old(last) && last.tail == last.buf.Length && Foreign(s) && s[from + len..from + left] == rest
        invariant Joined(parts) + rest == start + whole
        invariant len == left ==> rest == []
        decreases left - len
      {
        from := from + len;
        left := left - len;
        len := PutInNextNode(s, from, left);
        InTwoParts(start, whole, length);
        rest := [];
      }
    }

    method FinalizeLazyPut()
      requires Valid()
      modifies this, last, last.buf
      ensures Valid() && OnlyFreshNodes() && LastKept() && lazyLength == 0 && Contents() == old(Contents())
    {
      hide Joined, Separate, ByteQueueNode.Valid, ByteQueueNode.Contents;
      var len := lazyLength;
      lazyLength := 0;
      if len != 0 {
        PutInNodes(lazyString, lazyAt, len);
      }
      NoLazyBytes();
    }

    lemma NoLazyBytes()
      requires lazyAt + lazyLength <= lazyString.Length && lazyLength == 0
      ensures Contents() == Joined(parts)
    {
    }

    method Put2(s: array<Byte>, at: nat, length: nat)
      requires Valid() && Source(s, at, length) && (lazyLength > 0 ==> Foreign(s))
      modifies this, last, last.buf
      ensures Valid() && OnlyFreshNodes() && lazyLength == 0
      ensures Contents() == old(Contents()) + old(s[at..at + length])
    {
      hide Joined, Separate, ByteQueueNode.Valid, ByteQueueNode.Contents, Chain, Holds;
      LastBounds();
      if lazyLength > 0 {
        FinalizeLazyPut();
        LastBounds();
      }
      NoLazyBytes();
      assert Source(s, at, length);
      PutInNodes(s, at, length);
      NoLazyBytes();
    }

    /** Remembers the string instead of copying it, unless it already lies at the end of the queue. */
    method LazyPut(s: array<Byte>, at: nat, size: nat)
      requires Valid() && Source(s, at, size) && (lazyLength > 0 ==> Foreign(s))
      modifies this, last, last.buf
      ensures Valid() && OnlyFreshNodes() && Contents() == old(Contents()) + old(s[at..at + size])
      ensures lazyLength == size || (lazyLength == 0 && old(lazyLength == 0 && s == last.buf))
    {
      hide Joined, Separate, ByteQueueNode.Valid, ByteQueueNode.Contents;
      LastBounds();
      if lazyLength > 0 {
        FinalizeLazyPut();
        LastBounds();
      }
      NoLazyBytes();
      if s == last.buf && at == last.tail {
        Put2(s, at, size);
      } else {
        SetLazy(s, at, size);
      }
    }

    method LazyPutModifiable(s: array<Byte>, at: nat, size: nat)
      requires Valid() && at + size <= s.Length && Foreign(s)
      modifies this, last, last.buf
      ensures Valid() && OnlyFreshNodes() && Contents() == old(Contents()) + old(s[at..at + size])
    {
      hide Joined, Separate, ByteQueueNode.Valid, ByteQueueNode.Contents;
      LastBounds();
      if lazyLength > 0 {
        FinalizeLazyPut();
      }
      NoLazyBytes();
      SetLazy(s, at, size);
    }

    method SetLazy(s: array<Byte>, at: nat, size: nat)
      requires Valid() && lazyLength == 0 && at + size <= s.Length && Foreign(s)
      modifies this`lazyString, this`lazyAt, this`lazyLength
      ensures Valid() && Contents() == Joined(parts) + s[at..at + size]
    {
      hide Joined, Separate, ByteQueueNode.Valid, ByteQueueNode.Contents;
      lazyString, lazyAt, lazyLength := s, at, size;
    }

    /** Takes back the end of the lazy bytes; more than there are is refused. */
    method UndoLazyPut(size: nat) returns (r: UndoResult)
      requires Valid()
      modifies this`lazyLength
      ensures Valid() && r.InvalidArgument? == (size > old(lazyLength))
      ensures lazyLength == if r.Undone? then old(lazyLength) - size else old(lazyLength)
      ensures Contents() == if r.Undone? then old(Contents())[..|old(Contents())| - size] else old(Contents())
    {
      hide Joined, Separate, ByteQueueNode.Valid, ByteQueueNode.Contents;
      if lazyLength < size {
        return InvalidArgument;
      }
      Shortened(Joined(parts), Lazy(), size);
      SliceFront(lazyString[..], lazyAt, lazyLength, lazyLength - size);
      lazyLength := lazyLength - size;
      return Undone;
    }

    /** The front node of several, when all of it was taken. */
    method DropFirst()
      requires Listed() && first != last && first.head == first.buf.Length
      modifies this`first, this`nodes, this`parts
      ensures Listed() && Joined(parts) == old(Joined(parts)) && nodes == old(nodes)[1..]
    {
      hide Joined, Separate, Buffers;
      SeparateRest(nodes);
      JoinedAt(parts, 1);
      JoinedFirst(parts[1..]);
      first := first.next;
      nodes, parts := nodes[1..], parts[1..];
    }

    /** Used-up nodes leave the front; an emptied last node starts again at its beginning. */
    method CleanupUsedNodes()
      requires Listed()
      modifies this`first, this`nodes, this`parts, last`head, last`tail
      ensures Valid() && OnlyFreshNodes() && Joined(parts) == old(Joined(parts))
    {
      hide Joined, Separate, Buffers;
      ghost var dropped := 0;
      while first != last && first.UsedUp()
        invariant Listed() && Joined(parts) == old(Joined(parts))
        invariant dropped <= |old(nodes)| && nodes == old(nodes)[dropped..]
        decreases |nodes|
      {
        DropFirst();
        dropped := dropped + 1;
      }
      LastBounds();
      if first.tail - first.head == 0 {
        ResetFirst();
      }
    }

    method ResetFirst()
      requires Listed() && first.head == first.tail && (first != last ==> first.head < first.buf.Length)
      modifies first`head, first`tail
      ensures Valid()
    {
      hide Joined, Separate, Buffers;
      SeparateFrom(nodes, 0);
      first.Clear();
    }

    /** Bytes put back in front: the last of them before the front node's bytes if it has room, the rest in a new node. */
    method Unget(s: array<Byte>, at: nat, length: nat)
      requires Valid() && at + length <= s.Length && Foreign(s)
      modifies this`first, this`nodes, this`parts, first`head, first.buf
      ensures Valid() && Contents() == s[at..at + length] + old(Contents())
      ensures OnlyFreshNodes()
    {
      hide Joined, Separate, Buffers, ByteQueueNode.Valid, ByteQueueNode.Contents, Holds;
      ghost var p0 := Joined(parts);
      var len := PutBackFirst(s, at, length);
      var left := length - len;
      ghost var p1 := Joined(parts);
      SliceJoin(s[..], at, at + left, at + length);
      if left > 0 {
        PrependNode(s, at, left);
      }
      PutBefore(s[at..at + length], s[at..at + left], s[at + left..at + length], p0, p1, Joined(parts), Lazy());
    }

    method PutBackFirst(s: array<Byte>, at: nat, length: nat) returns (len: nat)
      requires Valid() && at + length <= s.Length && Foreign(s)
      modifies this`parts, first`head, first.buf
      ensures Valid() && len <= length
      ensures Joined(parts) == s[at + length - len..at + length] + old(Joined(parts))
    {
      hide Joined, Separate, Buffers, ByteQueueNode.Valid, ByteQueueNode.Contents;
      SeparateFrom(nodes, 0);
      first.Bounds();
      JoinedFirst(parts);
      ghost var kept := parts;
      len := first.PutBack(s, at, length);
      parts := parts[0 := s[at + length - len..at + length] + parts[0]];
      JoinedFirst(parts);
      assert parts[1..] == kept[1..];
      Associative(s[at + length - len..at + length], kept[0], Joined(kept[1..]));
    }

    method PrependNode(s: array<Byte>, at: nat, length: nat)
      requires Valid() && at + length <= s.Length && Foreign(s) && 0 < length
      modifies this`first, this`nodes, this`parts
      ensures Valid() && nodes == [first] + old(nodes) && fresh(first) && fresh(first.buf)
      ensures Joined(parts) == s[at..at + length] + old(Joined(parts))
    {
      hide Joined, Separate, Buffers, ByteQueueNode.Contents, ByteQueueNode.Valid;
      first.Bounds();
      var node := new ByteQueueNode(length);
      node.next := first;
      var len := node.Put(s, at, length);
      node.Bounds();
      assert node.Contents() == s[at..at + length];
      LinkFirst(node);
    }

    method LinkFirst(node: ByteQueueNode)
      requires Valid() && node.Valid() && node.next == first && node.tail == node.buf.Length && node.head < node.tail
      requires forall i {:trigger nodes[i]} :: 0 <= i < |nodes| ==> nodes[i] != node && nodes[i].buf != node.buf
      requires node.buf != lazyString
      modifies this`first, this`nodes, this`parts
      ensures Valid() && nodes == [node] + old(nodes) && first == node
      ensures Joined(parts) == node.Contents() + old(Joined(parts))
    {
      hide Joined, Separate, Buffers, ByteQueueNode.Contents, ByteQueueNode.Valid, Avoids;
      ChainPrepend(node, nodes);
      HoldsPrepend(node, nodes, parts);
      AvoidsPrepend(node, nodes, lazyString);
      first := node;
      nodes, parts := [node] + nodes, [node.Contents()] + parts;
      JoinedFirst(parts);
    }

    lemma Members()
      requires Listed()
      ensures first in nodes && last in nodes && first.buf in Buffers(nodes) && last.buf in Buffers(nodes)
      ensures |Contents()| == |Joined(parts)| + lazyLength
    {
    }

    lemma FrontBounds()
      requires Listed()
      ensures first.head <= first.tail <= first.buf.Length
    {
    }

    /** In a valid queue only the last node can be empty: an empty front means no node holds anything. */
    lemma FrontOnly()
      requires Valid()
      ensures parts[0] == first.Contents() && (parts[0] == [] ==> first == last && Joined(parts) == [])
      ensures Joined(parts) == parts[0] + Joined(parts[1..])
    {
      hide Joined, Separate, Buffers;
      JoinedFirst(parts);
      first.Bounds();
      if parts[0] == [] {
        assert parts == [[]];
        JoinedSingle<Byte>([]);
      }
    }

    /** The single-byte Get. */
    method Get() returns (outByte: Byte, count: nat)
      requires Valid()
      modifies this, nodes
      ensures Valid() && OnlyFreshNodes()
      ensures count == if old(Contents()) == [] then 0 else 1
      ensures old(Contents()) == (if count == 1 then [outByte] else []) + Contents()
      ensures lazyLength == Min(old(lazyLength), |Contents()|)
    {
      hide Joined, Separate, Buffers, ByteQueueNode.Valid, ByteQueueNode.Contents, Chain, Holds, Contents, Lazy;
      ContentsIs();
      ghost var held, lazy := Joined(parts), Lazy();
      outByte, count := GetHeld();
      ContentsIs();
      Delivered(held, lazy, if count == 1 then [outByte] else [], Joined(parts));
      if count == 0 && lazyLength > 0 {
        NothingAdded(Contents());
        outByte := GetLazy();
        count := 1;
        ContentsIs();
      }
    }

    lemma ContentsIs()
      requires Listed()
      ensures Contents() == Joined(parts) + Lazy() && |Lazy()| == lazyLength
    {
    }

    /** The first byte of the nodes. */
    method GetHeld() returns (outByte: Byte, count: nat)
      requires Valid()
      modifies this`first, this`nodes, this`parts, nodes
      ensures Valid() && OnlyFreshNodes() && count == if old(Joined(parts)) == [] then 0 else 1
      ensures old(Joined(parts)) == (if count == 1 then [outByte] else []) + Joined(parts)
    {
      hide Joined, Separate, Buffers, ByteQueueNode.Valid, ByteQueueNode.Contents;
      FrontOnly();
      outByte, count := GetFirst();
      NothingAdded(Joined(parts));
      if count == 1 {
        FrontBounds();
        if first.UsedUp() {
          CleanupUsedNodes();
        }
      }
    }

    method GetLazy() returns (outByte: Byte)
      requires Valid() && lazyLength > 0 && Joined(parts) == []
      modifies this`lazyAt, this`lazyLength
      ensures Valid() && old(Contents()) == [outByte] + Contents()
    {
      hide Joined, Separate, Buffers, ByteQueueNode.Valid, ByteQueueNode.Contents;
      outByte := lazyString[lazyAt];
      assert lazyString[lazyAt..lazyAt + lazyLength] == [outByte] + lazyString[lazyAt + 1..lazyAt + lazyLength];
      lazyAt := lazyAt + 1;
      lazyLength := lazyLength - 1;
    }

    method GetFirst() returns (outByte: Byte, count: nat)
      requires Valid()
      modifies this`parts, first`head
      ensures Listed() && count == (if old(parts[0]) == [] then 0 else 1) && (count == 0 ==> Valid() && parts == old(parts))
      ensures count == 1 ==> old(Joined(parts)) == [outByte] + Joined(parts)
    {
      hide Joined, Separate, Buffers, ByteQueueNode.Valid, ByteQueueNode.Contents;
      SeparateFrom(nodes, 0);
      FrontOnly();
      ghost var kept := parts;
      outByte, count := first.Get();
      if count == 1 {
        parts := parts[0 := first.Contents()];
        assert parts[1..] == kept[1..];
        JoinedFirst(parts);
        Associative([outByte], parts[0], Joined(parts[1..]));
      }
    }

    /** Up to so many bytes of one node are handed over. */
    method TransferFrom(ghost i: nat, current: ByteQueueNode, target: Sink, bytesLeft: nat) returns (len: nat)
      requires Listed() && i < |nodes| == |parts| && current == nodes[i]
      modifies this`parts, current`head, target
      ensures Listed() && len == Min(bytesLeft, |old(parts[i])|) && parts == old(parts)[i := old(parts[i])[len..]]
      ensures target.received == old(target.received) + old(parts[i])[..len]
    {
      hide Joined, Separate, Buffers, ByteQueueNode.Valid, ByteQueueNode.Contents, Avoids;
      SeparateFrom(nodes, i);
      ghost var whole := parts[i];
      assert whole == current.Contents();
      len := current.TransferTo(target, bytesLeft);
      assert current.Contents() == whole[len..];
      parts := parts[i := whole[len..]];
    }

    /** One node's share of a transfer, when the nodes before it are already empty. */
    method TransferNode(ghost i: nat, current: ByteQueueNode, target: Sink, bytesLeft: nat) returns (len: nat)
      requires Listed() && i < |nodes| == |parts| && current == nodes[i] && forall k :: 0 <= k < i ==> parts[k] == []
      modifies this`parts, current`head, target
      ensures Listed() && len <= bytesLeft && |target.received| == |old(target.received)| + len
      ensures target.received + Joined(parts) == old(target.received) + old(Joined(parts))
      ensures |parts| == |old(parts)| && forall k :: 0 <= k < i ==> parts[k] == []
      ensures len < bytesLeft ==> parts[i] == []
    {
      hide Joined, Separate, Buffers, ByteQueueNode.Valid, ByteQueueNode.Contents, Chain, Holds, Avoids;
      ghost var kept, before := parts, target.received;
      len := TransferFrom(i, current, target, bytesLeft);
      PartMoved(before, kept, i, len);
    }

    method TransferNodes(target: Sink, transferBytes: nat) returns (bytesLeft: nat)
      requires Valid()
      modifies this`first, this`nodes, this`parts, nodes, target
      ensures Valid() && OnlyFreshNodes() && bytesLeft <= transferBytes
      ensures |target.received| == |old(target.received)| + transferBytes - bytesLeft
      ensures target.received + Joined(parts) == old(target.received) + old(Joined(parts))
      ensures bytesLeft > 0 ==> Joined(parts) == []
    {
      hide Joined, Separate, Buffers, ByteQueueNode.Valid, ByteQueueNode.Contents, Chain, Holds, Avoids;
      LastBounds();
      bytesLeft := transferBytes;
      var current: ByteQueueNode? := first;
      ghost var i := 0;
      while bytesLeft != 0 && current != null
        invariant Listed() && nodes == old(nodes) && i <= |nodes| == |parts| && current == (if i < |nodes| then nodes[i] else null)
        invariant bytesLeft <= transferBytes && |target.received| == |old(target.received)| + transferBytes - bytesLeft
        invariant target.received + Joined(parts) == old(target.received) + old(Joined(parts))
        invariant bytesLeft > 0 ==> forall k :: 0 <= k < i ==> parts[k] == []
        decreases |nodes| - i
      {
        var len := TransferNode(i, current, target, bytesLeft);
        bytesLeft := bytesLeft - len;
        NextNode(i);
        current := current.next;
        i := i + 1;
      }
      LastBounds();
      if bytesLeft > 0 { JoinedEmpties(parts); }
      CleanupUsedNodes();
    }

    lemma NextNode(i: nat)
      requires Listed() && i < |nodes|
      ensures nodes[i].next == if i + 1 < |nodes| then nodes[i + 1] else null
    {
    }

    /** The blocking transfer. The target receives the front of the queue; the count of bytes moved comes back. */
    method TransferTo2(target: Sink, transferBytes: nat) returns (transferred: nat)
      requires Valid()
      modifies this, nodes, target
      ensures Valid() && OnlyFreshNodes() && transferred == Min(transferBytes, |old(Contents())|)
      ensures target.received == old(target.received) + old(Contents())[..transferred]
      ensures Contents() == old(Contents())[transferred..]
      ensures lazyLength == Min(old(lazyLength), |Contents()|)
    {
      hide Joined, Separate, Buffers, ByteQueueNode.Valid, ByteQueueNode.Contents, Chain, Holds, Avoids, Contents, Lazy;
      ContentsIs();
      ghost var before, held, lazy := target.received, Joined(parts), Lazy();
      var bytesLeft := TransferNodes(target, transferBytes);
      ghost var middle, kept := target.received, Joined(parts);
      var left := TransferLazy(target, bytesLeft);
      transferred := transferBytes - left;
      BothMoved(before, held, lazy, middle, kept, target.received, Lazy(), transferBytes, bytesLeft, left);
      ContentsIs();
    }

    method TransferLazy(target: Sink, bytesLeft: nat) returns (left: nat)
      requires Valid()
      modifies this`lazyAt, this`lazyLength, target
      ensures Valid() && left == bytesLeft - Min(bytesLeft, |old(Lazy())|)
      ensures target.received == old(target.received) + old(Lazy())[..bytesLeft - left]
      ensures Lazy() == old(Lazy())[bytesLeft - left..]
    {
      hide Joined, Separate, Buffers, ByteQueueNode.Valid, ByteQueueNode.Contents;
      left := bytesLeft;
      var len := Min(left, lazyLength);
      if len != 0 {
        assert lazyString[lazyAt..lazyAt + len] == Lazy()[..len];
        target.ChannelPut(lazyString, lazyAt, len);
        lazyAt := lazyAt + len;
        lazyLength := lazyLength - len;
        left := left - len;
      }
    }

    /** Everything goes but the first node, which starts again at its beginning. */
    method Clear()
      requires Valid()
      modifies this, first
      ensures Valid() && OnlyFreshNodes() && Contents() == [] && lazyLength == 0 && first == old(first) && nodes == [first]
    {
      hide Joined, Buffers;
      last := first;
      first.Clear();
      first.next := null;
      lazyLength := 0;
      nodes, parts := [first], [[]];
      JoinedSingle<Byte>([]);
    }

    method CurrentSize() returns (size: nat)
      requires Valid()
      ensures size == |Contents()|
    {
      hide Joined, Separate, Buffers;
      size := 0;
      var current: ByteQueueNode? := first;
      ghost var i := 0;
      while current != null
        invariant i <= |nodes| && current == (if i < |nodes| then nodes[i] else null)
        invariant size + |Joined(parts[i..])| == |Joined(parts)|
        decreases |nodes| - i
      {
        JoinedFirst(parts[i..]);
        assert parts[i..][1..] == parts[i + 1..];
        size := size + (current.tail - current.head);
        current := current.next;
        i := i + 1;
      }
      JoinedEmpties<Byte>(parts[i..]);
      size := size + lazyLength;
    }

    method IsEmpty() returns (r: bool)
      requires Valid()
      ensures r <==> Contents() == []
    {
      FrontOnly();
      first.Bounds();
      r := first == last && first.tail - first.head == 0 && lazyLength == 0;
    }

    /** A contiguous run at the front, empty only when the queue is. */
    method Spy() returns (s: array<Byte>, at: nat, contiguousSize: nat)
      requires Valid()
      ensures at + contiguousSize <= s.Length && s[at..at + contiguousSize] <= Contents()
      ensures contiguousSize == 0 <==> Contents() == []
    {
      hide Joined, Separate, Buffers, Chain;
      FrontOnly();
      FrontBounds();
      contiguousSize := first.tail - first.head;
      if contiguousSize == 0 && lazyLength > 0 {
        return lazyString, lazyAt, lazyLength;
      }
      return first.buf, first.head, contiguousSize;
    }

    /** Room at the end for the caller to write into; putting it afterwards copies nothing. */
    method CreatePutSpace(size: nat) returns (s: array<Byte>, at: nat, room: nat)
      requires Valid()
      modifies this, last, last.buf
      ensures Valid() && OnlyFreshNodes() && Contents() == old(Contents()) && lazyLength == 0
      ensures s == last.buf && at == last.tail && at + room == s.Length && 0 < room && Source(s, at, room)
    {
      hide Joined, Separate, Buffers, ByteQueueNode.Valid, ByteQueueNode.Contents;
      LastBounds();
      if lazyLength > 0 {
        FinalizeLazyPut();
        LastBounds();
      }
      if last.tail == last.buf.Length {
        JoinedAppend(parts, [[]]);
        JoinedSingle<Byte>([]);
        AppendNode(if nodeSize < size then size else nodeSize);
      }
      return last.buf, last.tail, last.buf.Length - last.tail;
    }
  }

  // ---- Any mix of operations ----

  datatype Operation =
    | Put(data: seq<Byte>)
    | LazyPut(data: seq<Byte>)
    | FinalizeLazyPut
    | UndoLazyPut(size: nat)
    | Get
    | Unget(data: seq<Byte>)
    | Clear
    | TransferTo(count: nat)

  /** The queue as a plain sequence; the last `lazy` bytes can still be taken back. */
  datatype Fifo = Fifo(bytes: seq<Byte>, lazy: nat)

  function Left(q: Fifo, n: nat): Fifo
    requires n <= |q.bytes|
  {
    Fifo(q.bytes[n..], Min(q.lazy, |q.bytes| - n))
  }

  /** What an operation makes of the sequence, and the bytes it delivers. */
  function Apply(q: Fifo, op: Operation): (Fifo, seq<Byte>) {
    match op
    case Put(data) => (Fifo(q.bytes + data, 0), [])
    case LazyPut(data) => (Fifo(q.bytes + data, |data|), [])
    case FinalizeLazyPut => (Fifo(q.bytes, 0), [])
    case UndoLazyPut(size) => (if size <= q.lazy && size <= |q.bytes| then Fifo(q.bytes[..|q.bytes| - size], q.lazy - size) else q, [])
    case Get => if q.bytes == [] then (q, []) else (Left(q, 1), q.bytes[..1])
    case Unget(data) => (Fifo(data + q.bytes, q.lazy), [])
    case Clear => (Fifo([], 0), [])
    case TransferTo(count) => var n := Min(count, |q.bytes|); (Left(q, n), q.bytes[..n])
  }

  /** All outputs of a list of operations, in order, and the sequence at the end. */
  function ApplyAll(ops: seq<Operation>): (Fifo, seq<Byte>) {
    if ops == [] then (Fifo([], 0), [])
    else
      var (q, out) := ApplyAll(ops[..|ops| - 1]);
      var (q', more) := Apply(q, ops[|ops| - 1]);
      (q', out + more)
  }

  ghost function View(queue: ByteQueue): Fifo
    requires queue.lazyAt + queue.lazyLength <= queue.lazyString.Length
    reads queue, queue.lazyString
  {
    Fifo(queue.Contents(), queue.lazyLength)
  }

  method Perform(queue: ByteQueue, op: Operation) returns (out: seq<Byte>)
    requires queue.Valid()
    modifies queue, queue.nodes, Buffers(queue.nodes)
    ensures queue.Valid() && queue.OnlyFreshNodes()
    ensures (View(queue), out) == Apply(old(View(queue)), op)
  {
    hide Joined, Separate, ByteQueueNode.Valid, ByteQueueNode.Contents, Chain, Holds;
    match op {
      case Get =>
        out := PerformGet(queue);
      case Clear =>
        queue.Members();
        queue.Clear();
        out := [];
      case TransferTo(count) =>
        out := PerformTransfer(queue, count);
      case _ =>
        PerformInput(queue, op);
        out := [];
    }
  }

  method PerformTransfer(queue: ByteQueue, count: nat) returns (out: seq<Byte>)
    requires queue.Valid()
    modifies queue, queue.nodes
    ensures queue.Valid() && queue.OnlyFreshNodes()
    ensures (View(queue), out) == Apply(old(View(queue)), TransferTo(count))
  {
    hide Joined, Separate, ByteQueueNode.Valid, ByteQueueNode.Contents, ByteQueue.Contents, ByteQueue.Lazy, Apply;
    ghost var before := queue.Contents();
    var target := new Sink();
    var n := queue.TransferTo2(target, count);
    out := target.received;
    NothingAdded(before[..n]);
    TransferApplied(old(View(queue)), count, View(queue), out);
  }

  lemma TransferApplied(q: Fifo, count: nat, q': Fifo, out: seq<Byte>)
    requires var n := Min(count, |q.bytes|); out == q.bytes[..n] && q'.bytes == q.bytes[n..] && q'.lazy == Min(q.lazy, |q'.bytes|)
    ensures (q', out) == Apply(q, TransferTo(count))
  {
  }

  method PerformGet(queue: ByteQueue) returns (out: seq<Byte>)
    requires queue.Valid()
    modifies queue, queue.nodes
    ensures queue.Valid() && queue.OnlyFreshNodes()
    ensures (View(queue), out) == Apply(old(View(queue)), Get)
  {
    hide Joined, Separate, ByteQueueNode.Valid, ByteQueueNode.Contents, Chain, Holds, Buffers, ByteQueue.Contents;
    ghost var before := View(queue);
    var b, count := queue.Get();
    out := if count == 1 then [b] else [];
    if count == 1 {
      FirstTaken(before.bytes, b, View(queue).bytes);
    } else {
      assert [] + View(queue).bytes == View(queue).bytes;
    }
  }

  lemma FirstTaken(s: seq<Byte>, b: Byte, t: seq<Byte>)
    requires s == [b] + t
    ensures s[..1] == [b] && s[1..] == t
  {
  }

  method PerformInput(queue: ByteQueue, op: Operation)
    requires queue.Valid() && !op.Get? && !op.Clear? && !op.TransferTo?
    modifies queue, queue.nodes, Buffers(queue.nodes)
    ensures queue.Valid() && queue.OnlyFreshNodes()
    ensures (View(queue), []) == Apply(old(View(queue)), op)
  {
    hide Joined, Separate, ByteQueueNode.Valid, ByteQueueNode.Contents, Chain, Holds, ByteQueue.Contents, ByteQueue.Lazy;
    queue.Members();
    match op {
      case FinalizeLazyPut =>
        queue.FinalizeLazyPut();
      case UndoLazyPut(size) =>
        var r := queue.UndoLazyPut(size);
      case Put(data) =>
        PerformPut(queue, data, false);
      case LazyPut(data) =>
        PerformPut(queue, data, true);
      case Unget(data) =>
        var s := Stored(data);
        queue.Unget(s, 0, |data|);
    }
  }

  method PerformPut(queue: ByteQueue, data: seq<Byte>, lazy: bool)
    requires queue.Valid()
    modifies queue, queue.last, queue.last.buf
    ensures queue.Valid() && queue.OnlyFreshNodes()
    ensures View(queue) == Fifo(old(View(queue)).bytes + data, if lazy then |data| else 0)
  {
    hide Joined, Separate, ByteQueueNode.Valid, ByteQueueNode.Contents, Chain, Holds, ByteQueue.Contents;
    queue.Members();
    var s := Stored(data);
    if lazy {
      queue.LazyPut(s, 0, |data|);
    } else {
      queue.Put2(s, 0, |data|);
    }
  }

  method Stored(data: seq<Byte>) returns (s: array<Byte>)
    ensures fresh(s) && s.Length == |data| && s[0..|data|] == data
  {
    s := new Byte[|data|](i requires 0 <= i < |data| => data[i]);
  }

  /** Whatever the mix of operations, a queue delivers and keeps exactly what the plain sequence does. */
  method PerformAll(ops: seq<Operation>, nodeSize: nat) returns (queue: ByteQueue, out: seq<Byte>)
    ensures queue.Valid() && (View(queue), out) == ApplyAll(ops)
  {
    hide Joined, Separate, Chain, Holds;
    queue := new ByteQueue(nodeSize);
    out := [];
    for i := 0 to |ops|
      invariant queue.Valid() && fresh(queue)
      invariant forall k {:trigger queue.nodes[k]} :: 0 <= k < |queue.nodes| ==> fresh(queue.nodes[k]) && fresh(queue.nodes[k].buf)
      invariant (View(queue), out) == ApplyAll(ops[..i])
    {
      assert ops[..i + 1][..i] == ops[..i];
      var more := Perform(queue, ops[i]);
      out := out + more;
    }
    assert ops[..|ops|] == ops;
  }

  /** First the nodes, then, once they are empty, the lazy bytes. */
  lemma BothMoved(before: seq<Byte>, held: seq<Byte>, lazy: seq<Byte>, middle: seq<Byte>, kept: seq<Byte>,
                  after: seq<Byte>, lazy': seq<Byte>, wanted: nat, left: nat, left': nat)
    requires middle + kept == before + held && left <= wanted && |middle| == |before| + wanted - left
    requires left > 0 ==> kept == []
    requires left' == left - Min(left, |lazy|) && after == middle + lazy[..left - left'] && lazy' == lazy[left - left'..]
    ensures wanted - left' == Min(wanted, |held + lazy|)
    ensures after == before + (held + lazy)[..wanted - left'] && kept + lazy' == (held + lazy)[wanted - left'..]
  {
    NothingTaken(middle, lazy);
    NothingTaken(lazy', lazy);
    if left == left' {
      OnlyNodesMoved(before, held, lazy, middle, kept, wanted - left);
    } else {
      NothingLeft(before, held, middle);
      NodesAndLazyMoved(before, held, lazy, left - left');
    }
  }

  lemma OnlyNodesMoved(before: seq<Byte>, held: seq<Byte>, lazy: seq<Byte>, middle: seq<Byte>, kept: seq<Byte>, n: nat)
    requires middle + kept == before + held && |middle| == |before| + n
    ensures n <= |held| && middle == before + (held + lazy)[..n] && kept + lazy == (held + lazy)[n..]
    ensures kept == [] ==> n == |held|
  {
    Conserved(before, held, middle, kept, n);
    CutSum(held, lazy, n);
  }

  lemma NodesAndLazyMoved(before: seq<Byte>, held: seq<Byte>, lazy: seq<Byte>, k: nat)
    requires k <= |lazy|
    ensures before + held + lazy[..k] == before + (held + lazy)[..|held| + k] && lazy[k..] == (held + lazy)[|held| + k..]
  {
    CutSum(held, lazy, |held| + k);
    Associative(before, held, lazy[..k]);
  }

  lemma NothingTaken(x: seq<Byte>, y: seq<Byte>)
    ensures x + y[..0] == x && y[0..] == y && [] + x == x
  {
  }

  lemma NothingLeft(before: seq<Byte>, held: seq<Byte>, middle: seq<Byte>)
    requires middle + [] == before + held
    ensures middle == before + held
  {
    assert middle + [] == middle;
  }

  lemma CutSum(x: seq<Byte>, y: seq<Byte>, n: nat)
    requires n <= |x| + |y|
    ensures n <= |x| ==> (x + y)[..n] == x[..n] && (x + y)[n..] == x[n..] + y
    ensures n >= |x| ==> (x + y)[..n] == x + y[..n - |x|] && (x + y)[n..] == y[n - |x|..]
  {
  }

  lemma MovedOver(before: seq<Byte>, part: seq<Byte>, n: nat, rest: seq<Byte>)
    requires n <= |part|
    ensures before + part[..n] + (part[n..] + rest) == before + (part + rest)
  {
    assert part == part[..n] + part[n..];
  }

  lemma PartMoved(before: seq<Byte>, parts: seq<seq<Byte>>, i: nat, n: nat)
    requires i < |parts| && (forall k :: 0 <= k < i ==> parts[k] == []) && n <= |parts[i]|
    ensures before + parts[i][..n] + Joined(parts[i := parts[i][n..]]) == before + Joined(parts)
  {
    hide Joined;
    var rest := parts[i := parts[i][n..]];
    JoinedAt(parts, i);
    JoinedAt(rest, i);
    assert rest[i + 1..] == parts[i + 1..];
    MovedOver(before, parts[i], n, Joined(parts[i + 1..]));
  }

  /** When nothing is lost or reordered, what was received is the front and what is left is the back. */
  lemma Conserved(before: seq<Byte>, all: seq<Byte>, received: seq<Byte>, rest: seq<Byte>, n: nat)
    requires received + rest == before + all && |received| == |before| + n
    ensures n <= |all| && received == before + all[..n] && rest == all[n..]
  {
    assert |all| == n + |rest|;
    Halves(received, rest);
    CutAfter(before, all, n);
  }

  lemma Halves(x: seq<Byte>, y: seq<Byte>)
    ensures (x + y)[..|x|] == x && (x + y)[|x|..] == y
  {
  }

  lemma CutAfter(x: seq<Byte>, y: seq<Byte>, n: nat)
    requires n <= |y|
    ensures (x + y)[..|x| + n] == x + y[..n] && (x + y)[|x| + n..] == y[n..]
  {
  }

  lemma Delivered(held: seq<Byte>, lazy: seq<Byte>, out: seq<Byte>, rest: seq<Byte>)
    requires held == out + rest
    ensures held + lazy == out + (rest + lazy) && |held + lazy| == |out| + |rest + lazy|
  {
  }

  lemma PutBefore(given: seq<Byte>, a: seq<Byte>, b: seq<Byte>, p0: seq<Byte>, p1: seq<Byte>, p2: seq<Byte>, lazy: seq<Byte>)
    requires given == a + b && p1 == b + p0 && p2 == if a == [] then p1 else a + p1
    ensures p2 + lazy == given + (p0 + lazy)
  {
    if a == [] { assert a + b == b; } else { Associative(a, b, p0); }
    Associative(given, p0, lazy);
  }

  lemma Shortened(x: seq<Byte>, y: seq<Byte>, n: nat)
    requires n <= |y|
    ensures (x + y)[..|x + y| - n] == x + y[..|y| - n]
  {
  }

  lemma SliceFront(s: seq<Byte>, at: nat, length: nat, n: nat)
    requires n <= length && at + length <= |s|
    ensures s[at..at + length][..n] == s[at..at + n]
  {
  }

  lemma InTwoParts(start: seq<Byte>, whole: seq<Byte>, done: nat)
    requires done <= |whole|
    ensures start + whole[..done] + whole[done..] == start + whole && start + whole + [] == start + whole
  {
  }
}
