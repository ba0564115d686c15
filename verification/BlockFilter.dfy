/** FilterWithBufferedInput: a message arriving in arbitrary pieces is handed on as a first part of fixed
    size, middle parts in multiples of the block size, and a last part. */
module BlockFilter {
  import opened Integers
  import opened Bytes
  import opened BlockQueues

  // ---- What a derived filter is called with ----

  datatype Call = FirstPut(data: seq<Byte>) | NextPut(data: seq<Byte>) | LastPut(data: seq<Byte>)

  function Data(calls: seq<Call>): seq<Byte> {
    if calls == [] then [] else Data(calls[..|calls| - 1]) + calls[|calls| - 1].data
  }

  lemma DataAppend(calls: seq<Call>, c: Call)
    ensures Data(calls + [c]) == Data(calls) + c.data
  {
    assert (calls + [c])[..|calls|] == calls;
  }

  /** After the first part only middle parts, each a positive multiple of the block size. */
  ghost predicate Started(calls: seq<Call>, f: nat, b: nat)
    requires b > 0
  {
    |calls| >= 1 && calls[0].FirstPut? && |calls[0].data| == f &&
    forall k :: 1 <= k < |calls| ==> calls[k].NextPut? && WholeBlocks(|calls[k].data|, b)
  }

  /** Bytes of a message of length n that would be held if no middle part had been handed on since its length was
      `since`: forcing then left less than a block. A message that was never forced counts from its first part. */
  function Unhanded(n: nat, since: nat, f: nat, b: nat): (x: nat)
    requires b > 0 && f <= since <= n
  {
    (since - f) % b + (n - since)
  }

  /** x bytes are held or still to come: all of them, or at least l because the rest went out in whole blocks. */
  ghost predicate LeftOver(x: nat, n: nat, since: nat, f: nat, b: nat, l: nat)
    requires b > 0
  {
    f <= since <= n &&
    (x == Unhanded(n, since, f, b) ||
     (l <= x && x < Unhanded(n, since, f, b) && WholeBlocks(Unhanded(n, since, f, b) - x, b)))
  }

  /** All calls for a message, from the first part to the last, when output was last forced at length `since`
      (or never, and `since` is f): middle parts handed on since then leave at least l bytes for the last part. */
  ghost predicate Complete(calls: seq<Call>, message: seq<Byte>, f: nat, b: nat, l: nat, since: nat)
    requires b > 0
  {
    Data(calls) == message && calls != [] && calls[|calls| - 1].LastPut? &&
    (|message| < f ==> |calls| == 1) &&
    (|message| >= f ==> Started(calls[..|calls| - 1], f, b) && |calls[|calls| - 1].data| < b + l &&
                        LeftOver(|calls[|calls| - 1].data|, |message|, since, f, b, l))
  }

  lemma NothingForced(n: nat, f: nat, b: nat, l: nat)
    requires b > 0 && f <= n
    ensures Unhanded(n, f, f, b) == n - f && LeftOver(n - f, n, f, f, b, l)
  {
    DivModUnique(0, b, 0, 0);
  }

  /** More input adds to what is left; handing on whole blocks takes from it, as long as l bytes stay. */
  lemma LeftOverMore(x: nat, n: nat, more: nat, since: nat, f: nat, b: nat, l: nat)
    requires b > 0 && LeftOver(x, n, since, f, b, l)
    ensures LeftOver(x + more, n + more, since, f, b, l)
  {
  }

  lemma LeftOverLess(x: nat, y: nat, n: nat, since: nat, f: nat, b: nat, l: nat)
    requires b > 0 && LeftOver(x, n, since, f, b, l) && l <= y <= x && WholeBlocks(x - y, b)
    ensures LeftOver(y, n, since, f, b, l)
  {
    var all := Unhanded(n, since, f, b);
    if x < all { SumOfMultiples(all - x, x - y, b); }
  }

  /** What stays the same in every stage: what was handed on, what is held and what is still to come. */
  ghost predicate Accounts(calls: seq<Call>, held: seq<Byte>, rest: seq<Byte>, message: seq<Byte>) {
    Data(calls) + held + rest == message
  }

  lemma HandOn(calls: seq<Call>, c: Call, held: seq<Byte>, held': seq<Byte>, rest: seq<Byte>, message: seq<Byte>)
    requires Accounts(calls, held, rest, message) && c.data + held' == held
    ensures Accounts(calls + [c], held', rest, message)
  {
    DataAppend(calls, c);
    assert Data(calls) + c.data + held' == Data(calls) + (c.data + held');
  }

  lemma HandOnDirect(calls: seq<Call>, c: Call, held: seq<Byte>, rest: seq<Byte>, rest': seq<Byte>, message: seq<Byte>)
    requires Accounts(calls, held, rest, message) && held == [] && c.data + rest' == rest
    ensures Accounts(calls + [c], held, rest', message)
  {
    hide Data;
    DataAppend(calls, c);
    assert Data(calls) + held + (c.data + rest') == Data(calls) + c.data + held + rest';
  }

  lemma TakeIn(calls: seq<Call>, held: seq<Byte>, rest: seq<Byte>, n: nat, message: seq<Byte>)
    requires Accounts(calls, held, rest, message) && n <= |rest|
    ensures Accounts(calls, held + rest[..n], rest[n..], message)
  {
    assert rest == rest[..n] + rest[n..];
    assert Data(calls) + (held + rest[..n]) + rest[n..] == Data(calls) + held + (rest[..n] + rest[n..]);
  }

  lemma StartedNext(calls: seq<Call>, c: Call, f: nat, b: nat)
    requires b > 0 && Started(calls, f, b) && c.NextPut? && WholeBlocks(|c.data|, b)
    ensures Started(calls + [c], f, b)
  {
  }

  /** Blocks the ring has room for: enough for all that may have to be held. */
  function MaxBlocks(b: nat, l: nat): (n: nat)
    requires b >= 1
    ensures Room(b, n) >= b + l - 1 && (b > 1 ==> Room(b, n) >= b)
  {
    CapacitySuffices(b, l);
    (2 * b + l - 2) / b
  }

  lemma CapacitySuffices(b: nat, l: nat)
    requires b >= 1
    ensures 0 <= (2 * b + l - 2) / b && b * ((2 * b + l - 2) / b) >= b + l - 1
    ensures b > 1 ==> b * ((2 * b + l - 2) / b) >= b
  {
    var x := 2 * b + l - 2;
    var q := x / b;
    assert x == q * b + x % b;
    Monotone(q, q, b);
    if q < 0 { Monotone(q, -1, b); }
    if b > 1 {
      if q <= 0 { Monotone(q, 0, b); }
      Monotone(1, q, b);
    }
  }

  ghost predicate WholeBlocks(n: nat, b: nat)
    requires b > 0
  {
    n > 0 && n % b == 0
  }

  function RoundDownToMultipleOf(n: nat, b: nat): (r: int)
    requires b > 0
  {
    n - n % b
  }

  lemma RoundedDown(n: nat, b: nat)
    requires 0 < b <= n
    ensures var r := RoundDownToMultipleOf(n, b); 0 < r <= n && WholeBlocks(r, b) && n - r < b
  {
    var q := n / b;
    assert n == q * b + n % b;
    if q <= 0 { Monotone(q, 0, b); }
    Monotone(1, q, b);
    DivModUnique(q * b, b, q, 0);
  }

  class FilterWithBufferedInput {
    var firstSize: nat
    var blockSize: nat
    var lastSize: nat
    var firstInputDone: bool
    const queue: BlockQueue

    // For the current message: the calls made, the bytes put, and how many there were when output was last forced
    // after the first part, or the size of the first part.
    ghost var calls: seq<Call>
    ghost var message: seq<Byte>
    ghost var since: nat

    ghost predicate Shape()
      reads this, queue
    {
      blockSize >= 1 && queue.Valid() && queue.Aligned() &&
      if firstInputDone then queue.blockSize == blockSize && queue.buffer.Length >= blockSize + lastSize - 1 &&
                             (blockSize > 1 ==> queue.buffer.Length >= blockSize)
      else queue.blockSize == 1 && queue.buffer.Length == firstSize && queue.begin == 0
    }

    /** Between the stages of a Put: rest is the input not yet looked at. */
    ghost predicate Midway(rest: seq<Byte>, goal: seq<Byte>)
      reads this, queue, queue.buffer
    {
      Shape() && firstInputDone && Accounts(calls, queue.Contents(), rest, goal) && Started(calls, firstSize, blockSize) &&
      LeftOver(queue.size + |rest|, |goal|, since, firstSize, blockSize, lastSize)
    }

    ghost predicate Valid()
      reads this, queue, queue.buffer
    {
      Shape() && Accounts(calls, queue.Contents(), [], message) &&
      if firstInputDone then Midway([], message) && queue.size < blockSize + lastSize
      else calls == [] && since == firstSize && (queue.size < firstSize || firstSize == 0 == queue.size)
    }

    lemma FirstPartDone()
      requires Valid()
      ensures firstInputDone ==> |message| >= firstSize
      ensures !firstInputDone ==> |message| < firstSize || (firstSize == 0 && message == [])
    {
      hide BlockQueue.Valid, BlockQueue.Aligned, Started, LeftOver, Data;
      LengthsAdd(calls, queue.Contents(), [], message);
      if firstInputDone { AtLeastFirst(calls, queue.Contents(), message, firstSize, blockSize); }
    }

    ghost predicate SameSizes(f: nat, b: nat, l: nat)
      reads this
    {
      firstSize == f && blockSize == b && lastSize == l
    }

    constructor (firstSize: nat, blockSize: nat, lastSize: nat)
      requires blockSize >= 1
      ensures Valid() && SameSizes(firstSize, blockSize, lastSize) && message == [] && !firstInputDone
      ensures fresh(queue) && fresh(queue.buffer)
    {
      this.firstSize, this.blockSize, this.lastSize, firstInputDone := firstSize, blockSize, lastSize, false;
      queue := new BlockQueue(1, firstSize);
      calls, message, since := [], [], firstSize;
    }

    /** The first part is complete: hand it on and reshape the queue for blocks. */
    method PutFirst(inString: seq<Byte>) returns (rest: seq<Byte>)
      requires Valid() && !firstInputDone && queue.size + |inString| >= firstSize
      modifies this, queue, queue.buffer
      ensures Midway(rest, old(message) + inString) && queue.size == 0 && |calls| == 1
      ensures |rest| == old(queue.size) + |inString| - firstSize
      ensures SameSizes(old(firstSize), old(blockSize), old(lastSize)) && message == old(message) && since == old(since) == firstSize
      ensures fresh(queue.buffer)
    {
      hide Accounts, Started, LeftOver, MaxBlocks, Room, WholeBlocks, BlockQueue.Valid, BlockQueue.Contents, BlockQueue.Aligned;
      ghost var goal := message + inString;
      var len := firstSize - queue.size;
      MoreToCome(calls, queue.Contents(), message, inString);
      TakeIn(calls, queue.Contents(), inString, len, goal);
      queue.Put(inString[..len]);
      ghost var held := queue.Contents();
      var ptr;
      // the count is passed by reference: it comes back unchanged because all of it is contiguous
      ptr, firstSize := queue.GetContigousBlocks(firstSize);
      HandOn(calls, FirstPut(queue.buffer[ptr..ptr + firstSize]), held, queue.Contents(), inString[len..], goal);
      calls := calls + [FirstPut(queue.buffer[ptr..ptr + firstSize])];
      OnlyFirst(calls, firstSize, blockSize);
      queue.ResetQueue(blockSize, MaxBlocks(blockSize, lastSize));
      rest := inString[len..];
      AfterFirst(calls, queue.Contents(), rest, goal, firstSize, blockSize, lastSize);
      firstInputDone := true;
    }

    method NextPutFromQueue(ptr: nat, length: nat, ghost held: seq<Byte>, ghost rest: seq<Byte>, ghost goal: seq<Byte>)
      requires Shape() && firstInputDone && Accounts(calls, held, rest, goal) && Started(calls, firstSize, blockSize)
      requires ptr + length <= queue.buffer.Length && queue.buffer[ptr..ptr + length] + queue.Contents() == held
      requires LeftOver(queue.size + length + |rest|, |goal|, since, firstSize, blockSize, lastSize)
      requires WholeBlocks(length, blockSize) && queue.size + |rest| >= lastSize
      modifies this`calls
      ensures Midway(rest, goal)
    {
      hide Data, Accounts, Started, LeftOver, MaxBlocks, Room, WholeBlocks, BlockQueue.Valid, BlockQueue.Contents, BlockQueue.Aligned;
      ghost var c := NextPut(queue.buffer[ptr..ptr + length]);
      HandOn(calls, c, held, queue.Contents(), rest, goal);
      StartedNext(calls, c, firstSize, blockSize);
      LeftOverLess(queue.size + length + |rest|, queue.size + |rest|, |goal|, since, firstSize, blockSize, lastSize);
      calls := calls + [c];
    }

    /** Whole blocks, or any run of bytes for block size 1, handed on straight from the input. */
    method NextPutFromInput(inString: seq<Byte>, length: nat, ghost goal: seq<Byte>) returns (rest: seq<Byte>)
      requires Midway(inString, goal) && queue.size == 0
      requires length <= |inString| && WholeBlocks(length, blockSize) && |inString| - length >= lastSize
      modifies this`calls
      ensures Midway(rest, goal) && |rest| == |inString| - length
    {
      hide Data, Accounts, Started, LeftOver, MaxBlocks, Room, WholeBlocks, BlockQueue.Valid, BlockQueue.Aligned;
      ghost var c := NextPut(inString[..length]);
      rest := inString[length..];
      assert c.data + rest == inString;
      HandOnDirect(calls, c, queue.Contents(), inString, rest, goal);
      StartedNext(calls, c, firstSize, blockSize);
      LeftOverLess(|inString|, |rest|, |goal|, since, firstSize, blockSize, lastSize);
      calls := calls + [c];
    }

    method NextBytes(inString: seq<Byte>, ghost goal: seq<Byte>) returns (rest: seq<Byte>)
      requires Midway(inString, goal) && blockSize == 1
      modifies this`calls, queue`begin, queue`size
      ensures Midway(rest, goal) && queue.size + |rest| <= lastSize
    {
      hide Accounts, Started, LeftOver, MaxBlocks, Room, WholeBlocks, BlockQueue.Valid, BlockQueue.Contents, BlockQueue.Aligned;
      var newLength := queue.size + |inString|;
      while newLength > lastSize && queue.size > 0
        invariant Midway(inString, goal) && newLength == queue.size + |inString|
        decreases queue.size
      {
        ghost var held := queue.Contents();
        var ptr, len := queue.GetContigousBlocks(newLength - lastSize);
        queue.BytesAlign();
        AnyBytes(len);
        NextPutFromQueue(ptr, len, held, inString, goal);
        newLength := newLength - len;
      }
      rest := inString;
      if newLength > lastSize {
        AnyBytes(newLength - lastSize);
        rest := NextPutFromInput(inString, newLength - lastSize, goal);
      }
    }

    method NextBlocks(inString: seq<Byte>, ghost goal: seq<Byte>) returns (rest: seq<Byte>)
      requires Midway(inString, goal) && blockSize > 1
      modifies this`calls, queue`begin, queue`size, queue.buffer
      ensures Midway(rest, goal) && queue.size + |rest| < blockSize + lastSize
    {
      hide Accounts, Started, LeftOver, MaxBlocks, Room, WholeBlocks, BlockQueue.Valid, BlockQueue.Contents, BlockQueue.Aligned;
      rest := inString;
      var newLength := queue.size + |rest|;
      while newLength >= blockSize + lastSize && queue.size >= blockSize
        invariant Midway(rest, goal) && newLength == queue.size + |rest|
        decreases queue.size
      {
        BlockFromQueue(rest, goal);
        newLength := newLength - blockSize;
      }
      if newLength >= blockSize + lastSize && queue.size > 0 {
        var len := blockSize - queue.size;
        TakeIn(calls, queue.Contents(), rest, len, goal);
        queue.Put(rest[..len]);
        rest := rest[len..];
        BlockFromQueue(rest, goal);
        newLength := newLength - blockSize;
      }
      if newLength >= blockSize + lastSize {
        RoundedDown(newLength - lastSize, blockSize);
        rest := NextPutFromInput(rest, RoundDownToMultipleOf(newLength - lastSize, blockSize), goal);
      }
    }

    method BlockFromQueue(ghost rest: seq<Byte>, ghost goal: seq<Byte>)
      requires Midway(rest, goal) && queue.size >= blockSize && queue.size + |rest| >= blockSize + lastSize
      modifies this`calls, queue`begin, queue`size
      ensures Midway(rest, goal) && queue.size == old(queue.size) - blockSize
    {
      hide Accounts, Started, LeftOver, MaxBlocks, Room, WholeBlocks, BlockQueue.Valid, BlockQueue.Contents, BlockQueue.Aligned;
      ghost var held := queue.Contents();
      var ptr, found := queue.GetBlock();
      OneBlock(blockSize);
      NextPutFromQueue(ptr, blockSize, held, rest, goal);
    }

    method Put(inString: seq<Byte>)
      requires Valid()
      modifies this, queue, queue.buffer
      ensures Valid() && message == old(message) + inString && since == old(since)
      ensures SameSizes(old(firstSize), old(blockSize), old(lastSize))
      ensures queue.buffer == old(queue.buffer) || fresh(queue.buffer)
    {
      hide Accounts, Started, LeftOver, MaxBlocks, Room, WholeBlocks, BlockQueue.Valid, BlockQueue.Contents, BlockQueue.Aligned;
      if |inString| != 0 {
        ghost var goal := message + inString;
        var rest := inString;
        if !firstInputDone && queue.size + |inString| >= firstSize {
          rest := PutFirst(inString);
        } else {
          MoreToCome(calls, queue.Contents(), message, inString);
          if firstInputDone {
            LeftOverMore(queue.size, |message|, |inString|, since, firstSize, blockSize, lastSize);
          }
        }
        if firstInputDone {
          if blockSize == 1 {
            rest := NextBytes(rest, goal);
          } else {
            rest := NextBlocks(rest, goal);
          }
        }
        HoldRest(rest, goal);
      }
    }

    /** What was not handed on stays in the queue. */
    method HoldRest(rest: seq<Byte>, ghost goal: seq<Byte>)
      requires Shape() && Accounts(calls, queue.Contents(), rest, goal)
      requires if firstInputDone then Midway(rest, goal) && queue.size + |rest| < blockSize + lastSize
               else calls == [] && since == firstSize && queue.size + |rest| < firstSize
      modifies this`message, queue`size, queue.buffer
      ensures Valid() && message == goal
    {
      hide Data, Accounts, Started, LeftOver, MaxBlocks, Room, WholeBlocks, BlockQueue.Valid, BlockQueue.Contents, BlockQueue.Aligned;
      TakeIn(calls, queue.Contents(), rest, |rest|, goal);
      assert rest[..|rest|] == rest && rest[|rest|..] == [];
      queue.Put(rest);
      message := goal;
    }

    method EndMessage() returns (ghost trace: seq<Call>)
      requires Valid()
      modifies this, queue, queue.buffer
      ensures Valid() && message == [] && !firstInputDone
      ensures Complete(trace, old(message), firstSize, blockSize, lastSize, old(since))
      ensures trace[|trace| - 1] == LastPut(old(queue.Contents()))
      ensures SameSizes(old(firstSize), old(blockSize), old(lastSize)) && fresh(queue.buffer)
    {
      hide Complete, Data, Accounts, Started, LeftOver, MaxBlocks, Room, WholeBlocks, BlockQueue.Valid, BlockQueue.Contents, BlockQueue.Aligned;
      if !firstInputDone && firstSize == 0 {
        HandOn(calls, FirstPut([]), queue.Contents(), queue.Contents(), [], message);
        calls := calls + [FirstPut([])];
        OnlyFirst(calls, firstSize, blockSize);
        LengthsAdd([], queue.Contents(), [], message);
        NothingForced(|message|, firstSize, blockSize, lastSize);
      }
      ghost var held := queue.Contents();
      var temp := new Byte[queue.size](_ => 0);
      var length := queue.GetAll(temp);
      assert temp[..] == temp[..length] == held;
      trace := calls + [LastPut(temp[..])];
      MessageComplete(calls, held, message, firstSize, blockSize, lastSize, since);
      firstInputDone := false;
      queue.ResetQueue(1, firstSize);
      RoomForBytes(firstSize);
      NothingYet();
      calls, message, since := [], [], firstSize;
    }

    method PutMaybeModifiable(inString: seq<Byte>, messageEnd: bool) returns (ghost trace: seq<Call>)
      requires Valid()
      modifies this, queue, queue.buffer
      ensures Valid() && SameSizes(old(firstSize), old(blockSize), old(lastSize))
      ensures queue.buffer == old(queue.buffer) || fresh(queue.buffer)
      ensures !messageEnd ==> message == old(message) + inString && since == old(since)
      ensures messageEnd ==> message == [] && !firstInputDone &&
                             Complete(trace, old(message) + inString, firstSize, blockSize, lastSize, old(since))
    {
      Put(inString);
      trace := [];
      if messageEnd {
        trace := EndMessage();
      }
    }

    /** A hard flush empties the queue of whole blocks, giving up the bytes kept back for the last part: what is
        held afterwards is what does not fill a block. Before the first part is complete it does nothing. */
    method ForceNextPut()
      requires Valid()
      modifies this`calls, this`since, queue`begin, queue`size
      ensures Valid() && message == old(message) && SameSizes(old(firstSize), old(blockSize), old(lastSize))
      ensures firstInputDone ==> since == |message| && queue.size == (|message| - firstSize) % blockSize
      ensures !firstInputDone ==> since == old(since) && calls == old(calls) && queue.Contents() == old(queue.Contents())
    {
      hide Accounts, Started, LeftOver, MaxBlocks, Room, WholeBlocks, BlockQueue.Valid, BlockQueue.Contents, BlockQueue.Aligned;
      if !firstInputDone {
        return;
      }
      if blockSize > 1 {
        while queue.size >= blockSize
          invariant Forcing()
          decreases queue.size
        {
          ghost var held := queue.Contents();
          var ptr, found := queue.GetBlock();
          OneBlock(blockSize);
          NextForced(ptr, blockSize, held);
        }
      } else {
        while queue.size > 0
          invariant Forcing()
          decreases queue.size
        {
          ghost var held := queue.Contents();
          var ptr, len := queue.GetContigousBlocks(queue.size);
          queue.BytesAlign();
          AnyBytes(len);
          NextForced(ptr, len, held);
        }
      }
      ForcedHeld(calls, queue.Contents(), message, firstSize, blockSize, lastSize);
      since := |message|;
    }

    /** While output is forced: bytes for the last part are not kept back. */
    ghost predicate Forcing()
      reads this, queue, queue.buffer
    {
      Shape() && firstInputDone && Accounts(calls, queue.Contents(), [], message) && Started(calls, firstSize, blockSize)
    }

    method NextForced(ptr: nat, length: nat, ghost held: seq<Byte>)
      requires Shape() && firstInputDone && Accounts(calls, held, [], message) && Started(calls, firstSize, blockSize)
      requires ptr + length <= queue.buffer.Length && queue.buffer[ptr..ptr + length] + queue.Contents() == held
      requires WholeBlocks(length, blockSize)
      modifies this`calls
      ensures Forcing()
    {
      ghost var c := NextPut(queue.buffer[ptr..ptr + length]);
      HandOn(calls, c, held, queue.Contents(), [], message);
      StartedNext(calls, c, firstSize, blockSize);
      calls := calls + [c];
    }
  }

  lemma LengthsAdd(calls: seq<Call>, held: seq<Byte>, rest: seq<Byte>, message: seq<Byte>)
    requires Accounts(calls, held, rest, message)
    ensures |message| == |Data(calls)| + |held| + |rest| && Data([]) == []
  {
  }

  lemma FirstOnlyLength(calls: seq<Call>)
    requires |calls| == 1
    ensures Data(calls) == calls[0].data
  {
    assert Data(calls[..0]) == [];
  }

  /** When only the first part was handed on, everything after it is left. */
  lemma AfterFirst(calls: seq<Call>, held: seq<Byte>, rest: seq<Byte>, message: seq<Byte>, f: nat, b: nat, l: nat)
    requires b > 0 && |calls| == 1 && |calls[0].data| == f && Accounts(calls, held, rest, message)
    ensures LeftOver(|held| + |rest|, |message|, f, f, b, l)
  {
    hide LeftOver;
    LengthsAdd(calls, held, rest, message);
    FirstOnlyLength(calls);
    NothingForced(|message|, f, b, l);
  }

  /** When less than a block is held, only the length of the message matters. */
  lemma ForcedHeld(calls: seq<Call>, held: seq<Byte>, message: seq<Byte>, f: nat, b: nat, l: nat)
    requires b > 0 && Accounts(calls, held, [], message) && Started(calls, f, b) && |held| < b
    ensures f <= |message| && |held| == (|message| - f) % b
    ensures LeftOver(|held|, |message|, |message|, f, b, l)
  {
    hide Data;
    LengthsAdd(calls, held, [], message);
    StartedLength(calls, f, b);
    QuotientSplit(MiddleLength(calls), b);
    DivModUnique(|message| - f, b, MiddleLength(calls) / b, |held|);
  }

  lemma MessageComplete(calls: seq<Call>, held: seq<Byte>, message: seq<Byte>, f: nat, b: nat, l: nat, since: nat)
    requires b > 0 && Accounts(calls, held, [], message)
    requires (calls == [] && |held| < f) || (Started(calls, f, b) && |held| < b + l && LeftOver(|held|, |message|, since, f, b, l))
    ensures Complete(calls + [LastPut(held)], message, f, b, l, since)
  {
    hide Data, LeftOver;
    var trace := calls + [LastPut(held)];
    assert trace[..|trace| - 1] == calls;
    HandOn(calls, LastPut(held), held, [], [], message);
    if calls == [] {
      NoData();
    } else {
      FirstPartOf(calls, f);
    }
  }

  lemma AtLeastFirst(calls: seq<Call>, held: seq<Byte>, message: seq<Byte>, f: nat, b: nat)
    requires b > 0 && Accounts(calls, held, [], message) && Started(calls, f, b)
    ensures |message| >= f
  {
    hide Data;
    LengthsAdd(calls, held, [], message);
    FirstPartOf(calls, f);
  }

  lemma NoData()
    ensures Data([]) == []
  {
  }

  lemma {:induction false} FirstPartOf(calls: seq<Call>, f: nat)
    requires calls != [] && |calls[0].data| == f
    ensures |Data(calls)| >= f
    decreases |calls|
  {
    if |calls| > 1 { FirstPartOf(calls[..|calls| - 1], f); }
  }

  lemma NothingYet()
    ensures Accounts([], [], [], [])
  {
  }

  lemma OnlyFirst(calls: seq<Call>, f: nat, b: nat)
    requires b > 0 && |calls| == 1 && calls[0].FirstPut? && |calls[0].data| == f
    ensures Started(calls, f, b)
  {
  }

  lemma OneBlock(b: nat)
    requires b > 0
    ensures WholeBlocks(b, b)
  {
  }

  lemma AnyBytes(n: nat)
    requires n > 0
    ensures WholeBlocks(n, 1)
  {
  }

  lemma MoreToCome(calls: seq<Call>, held: seq<Byte>, message: seq<Byte>, inString: seq<Byte>)
    requires Accounts(calls, held, [], message)
    ensures Accounts(calls, held, inString, message + inString)
  {
    assert Data(calls) + held + [] == Data(calls) + held;
  }

  // ---- Whole messages ----

  ghost function MiddleLength(calls: seq<Call>): nat {
    if |calls| <= 1 then 0 else MiddleLength(calls[..|calls| - 1]) + |calls[|calls| - 1].data|
  }

  lemma {:induction false} StartedLength(calls: seq<Call>, f: nat, b: nat)
    requires b > 0 && Started(calls, f, b)
    ensures |Data(calls)| == f + MiddleLength(calls) && MiddleLength(calls) % b == 0
    ensures |calls| > 1 ==> MiddleLength(calls) >= b
    ensures calls[0].data == Data(calls)[..f]
  {
    var n := |calls| - 1;
    if n > 0 {
      StartedLength(calls[..n], f, b);
      SumOfMultiples(MiddleLength(calls[..n]), |calls[n].data|, b);
    } else {
      assert Data(calls[..0]) == [];
      DivModUnique(0, b, 0, 0);
    }
  }

  lemma SumOfMultiples(x: nat, y: nat, b: nat)
    requires b > 0 && x % b == 0 && WholeBlocks(y, b)
    ensures (x + y) % b == 0 && y >= b
  {
    var p, q := x / b, y / b;
    assert x == p * b && y == q * b;
    assert (p + q) * b == x + y;
    DivModUnique(x + y, b, p + q, 0);
    if q <= 0 { Monotone(q, 0, b); }
    Monotone(1, q, b);
  }

  /** Bytes left for the last part: a function of the length of the message and of when output was last forced. */
  function LastLength(n: nat, since: nat, f: nat, b: nat, l: nat): (r: int)
    requires b > 0 && (f <= n ==> f <= since <= n)
  {
    if n < f then n
    else
      var x := Unhanded(n, since, f, b);
      if x < b + l then x else l + (n - f - l) % b
  }

  /** The parts of a message: first bytes, whole blocks and the end. */
  ghost predicate Parts(calls: seq<Call>, first: seq<Byte>, middle: seq<Byte>, last: seq<Byte>)
    requires calls != []
  {
    var n := |calls| - 1;
    calls[n].data == last && Data(calls[..n]) == first + middle &&
    (if n == 0 then first == [] else calls[0].FirstPut? && calls[0].data == first)
  }

  /** What the calls receive depends on the message and on where output was last forced, not on how it was cut
      into puts, nor on what was forced before. */
  lemma PartsDetermined(calls: seq<Call>, message: seq<Byte>, f: nat, b: nat, l: nat, since: nat)
    requires b > 0 && Complete(calls, message, f, b, l, since)
    ensures |message| >= f ==> f <= since <= |message|
    ensures var n := |message|; var k := LastLength(n, since, f, b, l);
            0 <= k <= n && (n >= f ==> f <= n - k) &&
            Parts(calls, if n < f then [] else message[..f], if n < f then [] else message[f..n - k], message[n - k..])
  {
    var n := |calls| - 1;
    var last := calls[n].data;
    if |message| < f {
      assert Data(calls[..0]) == [];
    } else {
      hide LeftOver;
      StartedLength(calls[..n], f, b);
      LastLengthUnique(|message|, since, f, b, l, |last|);
      assert message[..|message| - |last|] == Data(calls[..n]);
      assert message[..|message| - |last|] == message[..f] + message[f..|message| - |last|];
    }
  }

  lemma LastLengthUnique(n: nat, since: nat, f: nat, b: nat, l: nat, last: nat)
    requires b > 0 && f <= n && LeftOver(last, n, since, f, b, l) && last < b + l
    ensures f <= since <= n && last == LastLength(n, since, f, b, l)
  {
    var x := Unhanded(n, since, f, b);
    if last < x {
      var w := x - last;
      SumOfMultiples(0, w, b) by { DivModUnique(0, b, 0, 0); }
      QuotientSplit(w, b);
      QuotientSplit(since - f, b);
      SameRemainder(n - f - l, (since - f) / b, w / b, b, last - l);
    }
  }

  lemma SameRemainder(x: int, p: int, q: int, b: int, r: int)
    requires 0 <= r < b && x == p * b + q * b + r
    ensures x % b == r
  {
    AddMul(p, q, b);
    DivModUnique(x, b, p + q, r);
  }

  /** Exactly when the documented lower bound on the last part holds, whatever was forced: when the bytes not handed
      on since the last force reach it. */
  lemma LowerBoundExactly(calls: seq<Call>, message: seq<Byte>, f: nat, b: nat, l: nat, since: nat)
    requires b > 0 && |message| >= f && Complete(calls, message, f, b, l, since)
    ensures f <= since <= |message|
    ensures |calls[|calls| - 1].data| >= l <==> (since - f) % b + (|message| - since) >= l
  {
  }

  /** Middle parts are handed on exactly when the last part is shorter than what follows the first part. */
  lemma MiddleExactly(calls: seq<Call>, message: seq<Byte>, f: nat, b: nat, l: nat, since: nat)
    requires b > 0 && |message| >= f && Complete(calls, message, f, b, l, since)
    ensures |calls| > 2 <==> |calls[|calls| - 1].data| < |message| - f
  {
    hide LeftOver;
    var k := |calls| - 1;
    StartedLength(calls[..k], f, b);
    if |calls| == 2 { assert MiddleLength(calls[..k]) == 0; }
  }

  /** The sizes the class documents, as conditions on the total length of a message that was never forced. */
  lemma DocumentedSizes(calls: seq<Call>, message: seq<Byte>, f: nat, b: nat, l: nat)
    requires b > 0 && Complete(calls, message, f, b, l, f)
    ensures var n, last := |message|, |calls[|calls| - 1].data|;
            (calls[0].FirstPut? <==> n >= f) && (|calls| > 2 <==> n >= f + b + l) &&
            (n < f ==> last == n) && (f <= n <= f + l ==> last == n - f) && (n > f + l ==> l <= last < l + b)
  {
    if |message| >= f {
      MiddleExactly(calls, message, f, b, l, f);
      NothingForced(|message|, f, b, l);
      var w := |message| - f - |calls[|calls| - 1].data|;
      if w > 0 {
        SumOfMultiples(0, w, b) by { DivModUnique(0, b, 0, 0); }
      }
    } else {
      FirstOnlyLength(calls);
    }
  }

  // ---- Whole runs, hard flushes included ----

  datatype Input = Bytes(data: seq<Byte>) | HardFlush

  function Message(inputs: seq<Input>): seq<Byte> {
    if inputs == [] then []
    else
      var input := inputs[|inputs| - 1];
      Message(inputs[..|inputs| - 1]) + (if input.Bytes? then input.data else [])
  }

  /** Length of the message at its last hard flush after the first part, or the size of the first part. */
  function LastForced(inputs: seq<Input>, f: nat): (p: nat)
    ensures f <= p && (|Message(inputs)| >= f ==> p <= |Message(inputs)|) && (|Message(inputs)| < f ==> p == f)
  {
    if inputs == [] then f
    else if inputs[|inputs| - 1].HardFlush? && |Message(inputs)| >= f then |Message(inputs)|
    else LastForced(inputs[..|inputs| - 1], f)
  }

  /** A whole message through a new filter, cut anywhere and flushed anywhere. */
  method Process(inputs: seq<Input>, firstSize: nat, blockSize: nat, lastSize: nat) returns (ghost trace: seq<Call>)
    requires blockSize >= 1
    ensures Complete(trace, Message(inputs), firstSize, blockSize, lastSize, LastForced(inputs, firstSize))
  {
    hide Complete;
    var filter := new FilterWithBufferedInput(firstSize, blockSize, lastSize);
    for i := 0 to |inputs|
      invariant fresh(filter) && fresh(filter.queue) && fresh(filter.queue.buffer)
      invariant filter.Valid() && filter.message == Message(inputs[..i]) && filter.since == LastForced(inputs[..i], firstSize)
      invariant filter.SameSizes(firstSize, blockSize, lastSize)
    {
      assert inputs[..i + 1][..i] == inputs[..i];
      match inputs[i] {
        case Bytes(data) =>
          filter.Put(data);
        case HardFlush =>
          filter.FirstPartDone();
          filter.ForceNextPut();
      }
    }
    assert inputs[..|inputs|] == inputs;
    trace := filter.EndMessage();
  }

  /** The documented lower bound fails: 20 bytes and a hard flush, with blocks of 16 and 16 bytes to be kept back,
      leave 4 bytes for the last part. */
  method ShortLastPart() returns (ghost trace: seq<Call>)
    ensures Complete(trace, seq(20, _ => 0), 0, 16, 16, 20)
    ensures |trace[|trace| - 1].data| == 4
  {
    var inputs := [Bytes(seq(20, _ => 0)), HardFlush];
    assert inputs[..1] == [Bytes(seq(20, _ => 0))];
    assert inputs[..1][..0] == [];
    assert Message(inputs[..1]) == seq(20, _ => 0);
    assert Message(inputs) == seq(20, _ => 0);
    trace := Process(inputs, 0, 16, 16);
    LastLengthUnique(20, 20, 0, 16, 16, |trace[|trace| - 1].data|);
  }
}
