/** FilterWithBufferedInput::BlockQueue: a ring of bytes that hands out contiguous blocks. */
module BlockQueues {
  import opened Integers
  import opened Bytes

  /** The n bytes of the ring s that begin at the given place. */
  function Ring(s: seq<Byte>, begin: nat, n: nat): (r: seq<Byte>)
    requires begin <= |s| && n <= |s|
    ensures |r| == n
  {
    if begin + n <= |s| then s[begin..begin + n] else s[begin..] + s[..begin + n - |s|]
  }

  /** Writing after the n bytes of the ring, when there is room before the end of the buffer or the ring has wrapped. */
  lemma AppendWithin(s: seq<Byte>, begin: nat, n: nat, end: nat, x: seq<Byte>)
    requires begin <= |s| && n + |x| <= |s| && end + |x| <= |s|
    requires end == if begin + n < |s| then begin + n else begin + n - |s|
    ensures Ring(Overwritten(s, end, x), begin, n + |x|) == Ring(s, begin, n) + x
  {
    hide Overwritten, Ring;
    var t := Overwritten(s, end, x);
    if x == [] {
      OverwrittenNothing(s, end, x);
    } else if begin + n < |s| {
      OverwrittenFrom(s, begin, begin + n, x);
      RingIs(s, begin, n);
      RingIs(t, begin, n + |x|);
    } else {
      AppendWrapped(s, begin, end, x);
      RingIs(s, begin, n);
      RingIs(t, begin, n + |x|);
    }
  }

  /** Either form of the ring, where both apply too. */
  lemma RingIs(s: seq<Byte>, begin: nat, n: nat)
    requires begin <= |s| && n <= |s|
    ensures begin + n <= |s| ==> Ring(s, begin, n) == s[begin..begin + n]
    ensures begin + n >= |s| ==> Ring(s, begin, n) == s[begin..] + s[..begin + n - |s|]
  {
  }

  lemma RingStraight(s: seq<Byte>, begin: nat, n: nat)
    requires begin + n <= |s|
    ensures Ring(s, begin, n) == s[begin..begin + n]
  {
  }

  lemma OverwrittenNothing(s: seq<Byte>, end: nat, x: seq<Byte>)
    requires end <= |s| && x == []
    ensures Overwritten(s, end, x) == s
  {
  }

  lemma AppendWrapped(s: seq<Byte>, begin: nat, end: nat, x: seq<Byte>)
    requires end + |x| <= begin <= |s|
    ensures Overwritten(s, end, x)[begin..] + Overwritten(s, end, x)[..end + |x|] == s[begin..] + s[..end] + x
  {
    hide Overwritten;
    OverwrittenEnds(s, end, x, begin);
    Associative(s[begin..], s[..end], x);
  }

  lemma OverwrittenEnds(s: seq<Byte>, at: nat, x: seq<Byte>, i: nat)
    requires at + |x| <= i <= |s|
    ensures Overwritten(s, at, x)[i..] == s[i..] && Overwritten(s, at, x)[..at + |x|] == s[..at] + x
  {
  }

  /** Writing around the end of the buffer, in two pieces. */
  lemma AppendAround(s: seq<Byte>, begin: nat, n: nat, x: seq<Byte>, len: nat)
    requires begin + n < |s| && n + |x| <= |s| && len == |s| - begin - n < |x|
    ensures Ring(Overwritten(Overwritten(s, begin + n, x[..len]), 0, x[len..]), begin, n + |x|) == Ring(s, begin, n) + x
  {
    hide Overwritten;
    AroundPieces(s, begin, begin + n, x[..len], x[len..]);
    ThreePieces(s[begin..begin + n], x, len);
  }

  lemma AroundPieces(s: seq<Byte>, begin: nat, end: nat, x: seq<Byte>, y: seq<Byte>)
    requires begin <= end && end + |x| == |s| && |y| <= begin
    ensures Overwritten(Overwritten(s, end, x), 0, y)[begin..] == s[begin..end] + x
    ensures Overwritten(Overwritten(s, end, x), 0, y)[..|y|] == y
  {
    hide Overwritten;
    var u := Overwritten(s, end, x);
    OverwrittenFrom(s, begin, end, x);
    OverwrittenEnds(u, 0, y, begin);
    WholeBack(u, begin, |s|);
    EmptyFront(u, y);
  }

  lemma WholeBack(s: seq<Byte>, i: nat, n: nat)
    requires i <= |s| == n
    ensures s[i..] == s[i..n]
  {
  }

  lemma EmptyFront(s: seq<Byte>, x: seq<Byte>)
    ensures s[..0] + x == x
  {
  }

  lemma TwoPieces(s: seq<Byte>, a: seq<Byte>, b: seq<Byte>)
    requires |a| + |b| <= |s|
    ensures Overwritten(Overwritten(s, 0, a), |a|, b)[..|a| + |b|] == a + b
  {
  }

  lemma ThreePieces(a: seq<Byte>, x: seq<Byte>, len: nat)
    requires len <= |x|
    ensures a + x[..len] + x[len..] == a + x
  {
  }

  /** Taking bytes off the front of the ring. */
  lemma RingTake(s: seq<Byte>, begin: nat, n: nat, k: nat)
    requires begin <= |s| && n <= |s| && k <= n && begin + k <= |s|
    ensures Ring(s, begin, n)[..k] == s[begin..begin + k]
    ensures Ring(s, begin, n)[k..] == Ring(s, if begin + k == |s| then 0 else begin + k, n - k)
    ensures Ring(s, begin, n)[k..] == Ring(s, begin + k, n - k)
    ensures k == n ==> Ring(s, begin, n)[k..] == Ring(s, 0, 0)
  {
  }

  lemma FrontAndRest(s: seq<Byte>, k: nat, first: seq<Byte>, second: seq<Byte>)
    requires k <= |s| && first == s[..k] && second == s[k..]
    ensures s == first + second
  {
  }

  /** Size of a buffer for the given number of blocks. */
  function Room(blockSize: nat, maxBlocks: nat): (n: nat) {
    Monotone(0, maxBlocks, blockSize);
    blockSize * maxBlocks
  }

  lemma RoomForBytes(n: nat)
    ensures Room(1, n) == n
  {
  }

  lemma BlockFits(begin: nat, blockSize: nat, maxBlocks: nat)
    requires blockSize > 0 && begin % blockSize == 0 && begin < Room(blockSize, maxBlocks)
    ensures begin + blockSize <= Room(blockSize, maxBlocks) && (begin + blockSize) % blockSize == 0
  {
    var q := begin / blockSize;
    assert begin == q * blockSize;
    if maxBlocks <= q { Monotone(maxBlocks, q, blockSize); }
    Monotone(q + 1, maxBlocks, blockSize);
    assert (q + 1) * blockSize == begin + blockSize;
    DivModUnique(begin + blockSize, blockSize, q + 1, 0);
  }

  /** Two runs of a buffer, one after the other. */
  method CopyBoth(out: array<Byte>, buffer: array<Byte>, at: nat, n: nat, at': nat, n': nat)
    requires out != buffer && at + n <= buffer.Length && at' + n' <= buffer.Length && n + n' <= out.Length
    modifies out
    ensures out[..n + n'] == buffer[at..at + n] + buffer[at'..at' + n']
  {
    hide Overwritten;
    ghost var before := out[..];
    Memcpy(out, 0, buffer[at..at + n]);
    Memcpy(out, n, buffer[at'..at' + n']);
    TwoPieces(before, buffer[at..at + n], buffer[at'..at' + n']);
  }

  class BlockQueue {
    var buffer: array<Byte>
    var blockSize: nat
    var maxBlocks: nat
    var size: nat
    var begin: nat

    ghost predicate Valid()
      reads this
    {
      blockSize >= 1 && buffer.Length == Room(blockSize, maxBlocks) && size <= buffer.Length &&
      (begin < buffer.Length || (begin == 0 && buffer.Length == 0))
    }

    /** Blocks start at multiples of the block size, as long as only whole blocks were taken. */
    ghost predicate Aligned()
      reads this`begin, this`blockSize
    {
      blockSize >= 1 && begin % blockSize == 0
    }

    lemma BytesAlign()
      requires blockSize == 1
      ensures Aligned()
    {
    }

    ghost function Contents(): (s: seq<Byte>)
      requires Valid()
      reads this, buffer
      ensures |s| == size
    {
      Ring(buffer[..], begin, size)
    }

    constructor (blockSize: nat, maxBlocks: nat)
      requires blockSize >= 1
      ensures Valid() && Aligned() && Contents() == [] && fresh(buffer)
      ensures this.blockSize == blockSize && this.maxBlocks == maxBlocks && buffer.Length == Room(blockSize, maxBlocks) && begin == 0
    {
      buffer := new Byte[Room(blockSize, maxBlocks)](_ => 0);
      this.blockSize, this.maxBlocks, size, begin := blockSize, maxBlocks, 0, 0;
    }

    method ResetQueue(blockSize: nat, maxBlocks: nat)
      requires blockSize >= 1
      modifies this
      ensures Valid() && Aligned() && Contents() == [] && fresh(buffer)
      ensures this.blockSize == blockSize && this.maxBlocks == maxBlocks && buffer.Length == Room(blockSize, maxBlocks) && begin == 0
    {
      buffer := new Byte[Room(blockSize, maxBlocks)](_ => 0);
      this.blockSize := blockSize;
      this.maxBlocks := maxBlocks;
      size := 0;
      begin := 0;
    }

    /** The next whole block, if there is one: always one contiguous run of the buffer. */
    method GetBlock() returns (ptr: nat, found: bool)
      requires Valid() && Aligned()
      modifies this`begin, this`size
      ensures Valid() && Aligned() && found == (old(size) >= blockSize)
      ensures found ==> ptr + blockSize <= buffer.Length && buffer[ptr..ptr + blockSize] == old(Contents())[..blockSize]
      ensures Contents() == if found then old(Contents())[blockSize..] else old(Contents())
      ensures size == if found then old(size) - blockSize else old(size)
    {
      hide Room, Ring;
      if size >= blockSize {
        BlockFits(begin, blockSize, maxBlocks);
        RingTake(buffer[..], begin, size, blockSize);
        ptr := begin;
        begin := begin + blockSize;
        if begin == buffer.Length {
          begin := 0;
        }
        size := size - blockSize;
        return ptr, true;
      } else {
        return 0, false;
      }
    }

    /** As much of the front as is contiguous, up to numberOfBytes. */
    method GetContigousBlocks(numberOfBytes: nat) returns (ptr: nat, taken: nat)
      requires Valid()
      modifies this`begin, this`size
      ensures Valid() && taken == Min(numberOfBytes, Min(buffer.Length - old(begin), old(size)))
      ensures ptr == old(begin) && buffer[ptr..ptr + taken] == old(Contents())[..taken]
      ensures Contents() == old(Contents())[taken..] && size == old(size) - taken
      ensures numberOfBytes > 0 && old(size) > 0 ==> taken > 0
      ensures begin == if size == 0 || old(begin) + taken == buffer.Length then 0 else old(begin) + taken
    {
      hide Room, Ring;
      taken := Min(numberOfBytes, Min(buffer.Length - begin, size));
      RingTake(buffer[..], begin, size, taken);
      ptr := begin;
      begin := begin + taken;
      size := size - taken;
      if size == 0 || begin == buffer.Length {
        begin := 0;
      }
    }

    method GetAll(out: array<Byte>) returns (length: nat)
      requires Valid() && out != buffer && size <= out.Length
      modifies this`begin, this`size, out
      ensures Valid() && size == 0
      ensures length == old(size) && out[..length] == old(Contents())
    {
      hide Overwritten, Room, Ring;
      length := size;
      ghost var all := Contents();
      var ptr, taken := GetContigousBlocks(Room(blockSize, maxBlocks));
      assert size > 0 ==> begin == 0;
      RingStraight(buffer[..], begin, size);
      FrontAndRest(all, taken, buffer[ptr..ptr + taken], buffer[begin..begin + size]);
      CopyBoth(out, buffer, ptr, taken, begin, size);
      size := 0;
    }

    method Put(inString: seq<Byte>)
      requires Valid() && size + |inString| <= buffer.Length
      modifies this`size, buffer
      ensures Valid() && Contents() == old(Contents()) + inString && size == old(size) + |inString|
    {
      hide Room, Ring, Overwritten;
      ghost var before := buffer[..];
      var end := if size < buffer.Length - begin then begin + size else begin + size - buffer.Length;
      var len := Min(|inString|, buffer.Length - end);
      Memcpy(buffer, end, inString[..len]);
      if len < |inString| {
        Memcpy(buffer, 0, inString[len..]);
        AppendAround(before, begin, size, inString, len);
      } else {
        assert inString[..len] == inString;
        AppendWithin(before, begin, size, end, inString);
      }
      size := size + |inString|;
    }
  }
}
