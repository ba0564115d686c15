/** tiger_tree_fd: the root of a Merkle tree computed by recursion over a sequential reader. */
module TreeHash {
  import opened Integers
  import opened Bytes

  const BLOCK_SIZE: nat := 1024
  const DIGEST_LEN: nat := 24

  type Digest = d: seq<Byte> | |d| == DIGEST_LEN witness seq(DIGEST_LEN, _ => 0)

  /** The hash of a byte string after a one-byte prefix: 0 for leaves, 1 for inner nodes. */
  type HashFunction = (Byte, seq<Byte>) -> Digest

  function BlockSize(k: nat): (n: nat)
    ensures n > 0
  {
    BLOCK_SIZE * Pow2(k)
  }

  // ---- The tree as the THEX draft builds it, level by level ----

  function Leaves(h: HashFunction, s: seq<Byte>): (l: seq<Digest>)
    ensures l != []
  {
    if |s| <= BLOCK_SIZE then [h(0, s)] else [h(0, s[..BLOCK_SIZE])] + Leaves(h, s[BLOCK_SIZE..])
  }

  function Node(h: HashFunction, left: seq<Byte>, right: seq<Byte>): Digest {
    h(1, left + right)
  }

  /** The next level: neighbours hashed together, an unpaired last node promoted. */
  function Pair(h: HashFunction, l: seq<Digest>): (r: seq<Digest>)
    ensures |r| == (|l| + 1) / 2
  {
    if |l| <= 1 then l else [Node(h, l[0], l[1])] + Pair(h, l[2..])
  }

  function Root(h: HashFunction, l: seq<Digest>): Digest
    requires l != []
    decreases |l|
  {
    if |l| == 1 then l[0] else Root(h, Pair(h, l))
  }

  function TreeRoot(h: HashFunction, s: seq<Byte>): Digest {
    Root(h, Leaves(h, s))
  }

  // ---- The tree as the code recurses over it ----

  /** The digest for a segment that fits BLOCK_SIZE * 2^k bytes. */
  function Tree(h: HashFunction, s: seq<Byte>, k: nat): Digest {
    if k == 0 then h(0, s)
    else if |s| <= BlockSize(k - 1) then Tree(h, s, k - 1)
    else Node(h, Tree(h, s[..BlockSize(k - 1)], k - 1), Tree(h, s[BlockSize(k - 1)..], k - 1))
  }

  /** The same recursion over leaves instead of bytes. */
  function Merge(h: HashFunction, l: seq<Digest>, k: nat): Digest
    requires 0 < |l| <= Pow2(k)
  {
    if k == 0 then l[0]
    else if |l| <= Pow2(k - 1) then Merge(h, l, k - 1)
    else Node(h, Merge(h, l[..Pow2(k - 1)], k - 1), Merge(h, l[Pow2(k - 1)..], k - 1))
  }

  lemma {:induction false} LeafCount(h: HashFunction, s: seq<Byte>, n: nat)
    requires 0 < n
    ensures |Leaves(h, s)| <= n <==> |s| <= BLOCK_SIZE * n
  {
    if |s| > BLOCK_SIZE && n > 1 { LeafCount(h, s[BLOCK_SIZE..], n - 1); }
  }

  lemma LeavesFirst(h: HashFunction, s: seq<Byte>)
    ensures |s| <= BLOCK_SIZE ==> Leaves(h, s) == [h(0, s)]
    ensures |s| > BLOCK_SIZE ==> Leaves(h, s) == [h(0, s[..BLOCK_SIZE])] + Leaves(h, s[BLOCK_SIZE..])
  {
  }

  lemma {:induction false} LeavesSplit(h: HashFunction, s: seq<Byte>, n: nat)
    requires 0 < n && BLOCK_SIZE * n < |s|
    ensures n < |Leaves(h, s)|
    ensures Leaves(h, s)[..n] == Leaves(h, s[..BLOCK_SIZE * n])
    ensures Leaves(h, s)[n..] == Leaves(h, s[BLOCK_SIZE * n..])
  {
    hide Leaves;
    var rest := s[BLOCK_SIZE..];
    var head := s[..BLOCK_SIZE * n];
    assert s[..BLOCK_SIZE] == head[..BLOCK_SIZE];
    LeavesFirst(h, s);
    LeavesFirst(h, head);
    if n == 1 {
      assert Leaves(h, s)[1..] == Leaves(h, rest);
    } else {
      LeavesSplit(h, rest, n - 1);
      assert head[BLOCK_SIZE..] == rest[..BLOCK_SIZE * (n - 1)];
      assert rest[BLOCK_SIZE * (n - 1)..] == s[BLOCK_SIZE * n..];
      FrontJoined(h(0, s[..BLOCK_SIZE]), Leaves(h, rest), n - 1);
    }
  }

  lemma FrontJoined(d: Digest, l: seq<Digest>, n: nat)
    requires n <= |l|
    ensures ([d] + l)[..n + 1] == [d] + l[..n] && ([d] + l)[n + 1..] == l[n..]
  {
  }

  lemma {:induction false} TreeIsMerge(h: HashFunction, s: seq<Byte>, k: nat)
    requires |s| <= BlockSize(k)
    ensures |Leaves(h, s)| <= Pow2(k) && Tree(h, s, k) == Merge(h, Leaves(h, s), k)
  {
    LeafCount(h, s, Pow2(k));
    if k > 0 {
      var n := Pow2(k - 1);
      LeafCount(h, s, n);
      if |s| <= BlockSize(k - 1) {
        TreeIsMerge(h, s, k - 1);
      } else {
        LeavesSplit(h, s, n);
        TreeIsMerge(h, s[..BLOCK_SIZE * n], k - 1);
        TreeIsMerge(h, s[BLOCK_SIZE * n..], k - 1);
      }
    }
  }

  lemma {:induction false} PairSplit(h: HashFunction, l: seq<Digest>, n: nat)
    requires n % 2 == 0 && n <= |l|
    ensures Pair(h, l) == Pair(h, l[..n]) + Pair(h, l[n..])
  {
    hide Pair, Node;
    PairFirst(h, l);
    PairFirst(h, l[..n]);
    if n > 0 {
      PairSplit(h, l[2..], n - 2);
      assert l[2..][..n - 2] == l[..n][2..];
      assert l[2..][n - 2..] == l[n..];
    } else {
      assert l[0..] == l && l[..0] == [];
    }
  }

  lemma PairFirst(h: HashFunction, l: seq<Digest>)
    ensures |l| <= 1 ==> Pair(h, l) == l
    ensures |l| > 1 ==> Pair(h, l) == [Node(h, l[0], l[1])] + Pair(h, l[2..])
  {
  }

  lemma HalfJoin(p: seq<Digest>, x: seq<Digest>, y: seq<Digest>, n: nat)
    requires p == x + y && |x| == n
    ensures n <= |p| && p[..n] == x && p[n..] == y
  {
  }

  /** Pairing neighbours first does not change what the recursion computes. */
  lemma {:induction false} MergePairs(h: HashFunction, l: seq<Digest>, k: nat)
    requires 0 < k && 0 < |l| <= Pow2(k)
    ensures Merge(h, l, k) == Merge(h, Pair(h, l), k - 1)
  {
    hide Pair, Merge, Pow2;
    Pow2Next(0);
    if k == 1 {
      MergeTwo(h, l);
    } else {
      HalfPowers(k);
      MergeStep(h, l, k);
      MergeStep(h, Pair(h, l), k - 1);
      if |l| <= Pow2(k - 1) {
        MergePairs(h, l, k - 1);
      } else {
        var n := Pow2(k - 1);
        MergePairs(h, l[..n], k - 1);
        MergePairs(h, l[n..], k - 1);
        PairSplit(h, l, n);
        HalfJoin(Pair(h, l), Pair(h, l[..n]), Pair(h, l[n..]), n / 2);
      }
    }
  }

  lemma HalfPowers(k: nat)
    requires 2 <= k
    ensures Pow2(k - 1) == 2 * Pow2(k - 2) && Pow2(k) == 2 * Pow2(k - 1)
  {
  }

  lemma MergeTwo(h: HashFunction, l: seq<Digest>)
    requires 0 < |l| <= Pow2(1)
    ensures Merge(h, l, 1) == Merge(h, Pair(h, l), 0)
  {
    assert Pow2(0) == 1;
  }

  lemma MergeStep(h: HashFunction, l: seq<Digest>, k: nat)
    requires 0 < k && 0 < |l| <= Pow2(k)
    ensures |l| <= Pow2(k - 1) ==> Merge(h, l, k) == Merge(h, l, k - 1)
    ensures |l| > Pow2(k - 1) ==>
              Merge(h, l, k) == Node(h, Merge(h, l[..Pow2(k - 1)], k - 1), Merge(h, l[Pow2(k - 1)..], k - 1))
  {
  }

  lemma {:induction false} MergeIsRoot(h: HashFunction, l: seq<Digest>, k: nat)
    requires 0 < |l| <= Pow2(k)
    ensures Merge(h, l, k) == Root(h, l)
    decreases k
  {
    if k > 0 {
      MergePairs(h, l, k);
      MergeIsRoot(h, Pair(h, l), k - 1);
    }
  }

  /** Any large enough power-of-two block size gives the root of the level-by-level tree. */
  lemma TreeIsRoot(h: HashFunction, s: seq<Byte>, k: nat)
    requires |s| <= BlockSize(k)
    ensures Tree(h, s, k) == TreeRoot(h, s)
  {
    TreeIsMerge(h, s, k);
    MergeIsRoot(h, Leaves(h, s), k);
  }

  /** The block size never matters, whatever a caller starts from. */
  lemma BlockSizeIndependent(h: HashFunction, s: seq<Byte>, j: nat, k: nat)
    requires |s| <= BlockSize(j) && |s| <= BlockSize(k)
    ensures Tree(h, s, j) == Tree(h, s, k)
  {
    TreeIsRoot(h, s, j);
    TreeIsRoot(h, s, k);
  }

  /** The root in one piece: a leaf up to 1024 bytes; otherwise the node over the roots of the first 1024 * 2^k bytes,
      as many as possible with some left over, and of the rest. */
  lemma RootSplits(h: HashFunction, s: seq<Byte>, k: nat)
    ensures |TreeRoot(h, s)| == 24
    ensures |s| <= 1024 ==> TreeRoot(h, s) == h(0, s)
    ensures 0 < 1024 * Pow2(k)
    ensures 1024 * Pow2(k) < |s| <= 2 * (1024 * Pow2(k)) ==>
              TreeRoot(h, s) == h(1, TreeRoot(h, s[..1024 * Pow2(k)]) + TreeRoot(h, s[1024 * Pow2(k)..]))
  {
    hide TreeRoot, Tree;
    var n := 1024 * Pow2(k);
    if |s| <= 1024 {
      TreeIsRoot(h, s, 0);
      TreeLeaf(h, s);
    } else if n < |s| <= 2 * n {
      TreeIsRoot(h, s, k + 1);
      TreeIsRoot(h, s[..n], k);
      TreeIsRoot(h, s[n..], k);
      TreeNode(h, s, k + 1);
    }
  }

  lemma TreeLeaf(h: HashFunction, s: seq<Byte>)
    ensures Tree(h, s, 0) == h(0, s)
  {
  }

  lemma OneOrTwoLeaves(h: HashFunction, s: seq<Byte>)
    ensures |s| <= 1024 ==> TreeRoot(h, s) == h(0, s)
    ensures 1024 < |s| <= 2048 ==> TreeRoot(h, s) == h(1, h(0, s[..1024]) + h(0, s[1024..]))
  {
    hide TreeRoot;
    Pow2Next(0);
    RootSplits(h, s, 0);
    if 1024 < |s| <= 2048 {
      RootSplits(h, s[..1024], 0);
      RootSplits(h, s[1024..], 0);
    }
  }

  // ---- The reader ----

  /** A file descriptor. Each read delivers what the system chooses to: a short count, the end, or an error. */
  class FileDescriptor {
    const data: seq<Byte>
    const answers: nat -> int
    var position: nat
    var calls: nat

    constructor (data: seq<Byte>, answers: nat -> int)
      ensures this.data == data && this.answers == answers && position == 0 && calls == 0
    {
      this.data, this.answers, position, calls := data, answers, 0, 0;
    }

    /** No read ever fails; counts may still be short. */
    ghost predicate Reliable() {
      forall i: nat :: answers(i) >= 0
    }

    function Remaining(): (n: nat)
      reads this
    {
      if position < |data| then |data| - position else 0
    }

    method Seek(to: nat)
      modifies this
      ensures position == to
    {
      position := to;
    }

    method Read(buffer: array<Byte>, at: nat, wanted: nat) returns (nread: int)
      requires at + wanted <= buffer.Length && 0 < wanted
      modifies this, buffer
      ensures nread <= 0 ==> position == old(position) && buffer[..] == old(buffer[..])
      ensures nread > 0 ==> nread <= wanted && position == old(position) + nread <= |data|
      ensures nread > 0 ==> buffer[..] == old(buffer[..at]) + data[old(position)..position] + old(buffer[at + nread..])
      ensures nread <= 0 ==> position >= |data| || !Reliable()
    {
      var answer := answers(calls);
      calls := calls + 1;
      if answer < 0 || Remaining() == 0 {
        return if answer < 0 then -1 else 0;
      }
      nread := Min(Min(answer + 1, wanted), Remaining());
      forall i | 0 <= i < nread {
        buffer[at + i] := data[position + i];
      }
      position := position + nread;
    }
  }

  // ---- The hasher ----

  class TreeHasher {
    const hash: HashFunction
    /** Shared by every leaf; its first byte is left for the prefix. */
    const tigerBuffer: array<Byte>

    constructor (hash: HashFunction)
      ensures this.hash == hash && fresh(tigerBuffer) && tigerBuffer.Length == BLOCK_SIZE + 1
    {
      this.hash := hash;
      tigerBuffer := new Byte[BLOCK_SIZE + 1](_ => 0);
    }

    method StoreDigest(digest: array<Byte>, at: nat, d: Digest)
      requires at + DIGEST_LEN <= digest.Length
      modifies digest
      ensures digest[..] == old(digest[..at]) + d + old(digest[at + DIGEST_LEN..])
    {
      var i := 0;
      while i < DIGEST_LEN
        invariant 0 <= i <= DIGEST_LEN
        invariant forall j {:trigger digest[j]} :: 0 <= j < digest.Length ==>
                    digest[j] == if at <= j < at + i then d[j - at] else old(digest[j])
      {
        digest[at + i] := d[i];
        i := i + 1;
      }
    }

    /** Reads again after every short count until the leaf is complete. */
    method ReadLeaf(fd: FileDescriptor, length: nat) returns (ok: bool)
      requires length <= BLOCK_SIZE && tigerBuffer.Length == BLOCK_SIZE + 1
      modifies fd, tigerBuffer
      ensures ok ==> fd.position == old(fd.position) + length && (length > 0 ==> fd.position <= |fd.data|)
      ensures ok && length > 0 ==> tigerBuffer[1..1 + length] == fd.data[old(fd.position)..fd.position]
      ensures !ok ==> fd.position <= old(fd.position) + length
      ensures fd.Reliable() && old(fd.position) + length <= |fd.data| ==> ok
    {
      var curs := 1;
      var toread := length;
      while toread > 0
        invariant 1 <= curs && 0 <= toread && curs - 1 + toread == length
        invariant fd.position == old(fd.position) + curs - 1
        invariant curs > 1 ==> fd.position <= |fd.data| && tigerBuffer[1..curs] == fd.data[old(fd.position)..fd.position]
      {
        ghost var before, start, filled := tigerBuffer[..], fd.position, curs;
        var nread := fd.Read(tigerBuffer, curs, toread);
        if nread <= 0 {
          return false;
        }
        assert before[1..filled] == tigerBuffer[1..filled];
        assert tigerBuffer[filled..filled + nread] == fd.data[start..fd.position];
        assert tigerBuffer[1..filled + nread] == tigerBuffer[1..filled] + tigerBuffer[filled..filled + nread];
        curs := curs + nread;
        toread := toread - nread;
      }
      return true;
    }

    method TigerTreeFd(fd: FileDescriptor, len: nat, pos: nat, blockSize: nat, digest: array<Byte>, at: nat, ghost k: nat)
        returns (ok: bool)
      requires tigerBuffer.Length == BLOCK_SIZE + 1 && digest != tigerBuffer
      requires pos <= len && blockSize == BlockSize(k) && at + DIGEST_LEN <= digest.Length
      modifies fd, tigerBuffer, digest
      ensures ok ==> var n := Min(blockSize, len - pos);
              fd.position == old(fd.position) + n && (n > 0 ==> fd.position <= |fd.data|) &&
              digest[..] == old(digest[..at]) + Tree(hash, if n == 0 then [] else fd.data[old(fd.position)..fd.position], k)
                            + old(digest[at + DIGEST_LEN..])
      ensures !ok ==> fd.position <= old(fd.position) + Min(blockSize, len - pos)
      ensures fd.Reliable() && old(fd.position) + Min(blockSize, len - pos) <= |fd.data| ==> ok
      decreases k
    {
      assert Pow2(0) == 1;
      if blockSize == BLOCK_SIZE {
        PowerOne(k);
        var length := if len - pos > BLOCK_SIZE then BLOCK_SIZE else len - pos;
        ok := ReadLeaf(fd, length);
        if ok {
          StoreDigest(digest, at, hash(0, tigerBuffer[1..1 + length]));
        }
      } else {
        assert k > 0 && blockSize / 2 == BlockSize(k - 1);
        if pos + blockSize / 2 >= len {
          ok := TigerTreeFd(fd, len, pos, blockSize / 2, digest, at, k - 1);
        } else {
          ok := TwoSubtrees(fd, len, pos, blockSize, digest, at, k);
        }
      }
    }

    method TwoSubtrees(fd: FileDescriptor, len: nat, pos: nat, blockSize: nat, digest: array<Byte>, at: nat, ghost k: nat)
        returns (ok: bool)
      requires tigerBuffer.Length == BLOCK_SIZE + 1 && digest != tigerBuffer
      requires k > 0 && blockSize == BlockSize(k) && at + DIGEST_LEN <= digest.Length && pos + BlockSize(k - 1) < len
      modifies fd, tigerBuffer, digest
      ensures ok ==> var n := Min(blockSize, len - pos);
              fd.position == old(fd.position) + n <= |fd.data| &&
              digest[..] == old(digest[..at]) + Tree(hash, fd.data[old(fd.position)..fd.position], k)
                            + old(digest[at + DIGEST_LEN..])
      ensures !ok ==> fd.position <= old(fd.position) + Min(blockSize, len - pos)
      ensures fd.Reliable() && old(fd.position) + Min(blockSize, len - pos) <= |fd.data| ==> ok
      decreases k, 0
    {
      hide Tree;
      var half := blockSize / 2;
      assert half == BlockSize(k - 1);
      hide BlockSize, Pow2;
      var digests := new Byte[1 + 2 * DIGEST_LEN](_ => 0);
      ghost var start := fd.position;
      ok := TigerTreeFd(fd, len, pos, half, digests, 1, k - 1);
      if ok {
        ghost var middle, first := fd.position, digests[1..1 + DIGEST_LEN];
        ok := TigerTreeFd(fd, len, pos + half, half, digests, 1 + DIGEST_LEN, k - 1);
        if ok {
          ghost var segment := fd.data[start..fd.position];
          assert segment[..half] == fd.data[start..middle] && segment[half..] == fd.data[middle..fd.position];
          assert digests[1..1 + 2 * DIGEST_LEN] == first + digests[1 + DIGEST_LEN..1 + 2 * DIGEST_LEN];
          TreeNode(hash, segment, k);
          StoreDigest(digest, at, hash(1, digests[1..1 + 2 * DIGEST_LEN]));
        }
      }
    }

    /** METHOD_TIGER of the hasher: position the file, choose the block size, recurse. */
    method HashFile(fd: FileDescriptor, begin: nat, len: nat, digest: array<Byte>) returns (ok: bool)
      requires tigerBuffer.Length == BLOCK_SIZE + 1 && digest != tigerBuffer && DIGEST_LEN <= digest.Length
      modifies fd, tigerBuffer, digest
      ensures ok ==> fd.position == begin + len && (len > 0 ==> begin + len <= |fd.data|)
      ensures ok ==> digest[..DIGEST_LEN] == TreeRoot(hash, if len == 0 then [] else fd.data[begin..begin + len])
      ensures !ok ==> fd.position <= begin + len
      ensures fd.Reliable() && begin + len <= |fd.data| ==> ok
    {
      ghost var k;
      var blockSize;
      blockSize, k := TigerBlockSize(len);
      fd.Seek(begin);
      ok := TigerTreeFd(fd, len, 0, blockSize, digest, 0, k);
      if ok {
        TreeIsRoot(hash, if len == 0 then [] else fd.data[begin..begin + len], k);
      }
    }
  }

  lemma TreeNode(h: HashFunction, s: seq<Byte>, k: nat)
    requires 0 < k && BlockSize(k - 1) < |s|
    ensures Tree(h, s, k) == h(1, Tree(h, s[..BlockSize(k - 1)], k - 1) + Tree(h, s[BlockSize(k - 1)..], k - 1))
  {
  }

  lemma PowerOne(k: nat)
    requires BlockSize(k) == BLOCK_SIZE
    ensures k == 0
  {
  }

  /** The smallest admissible block size. */
  method TigerBlockSize(len: nat) returns (blockSize: nat, ghost k: nat)
    ensures blockSize == BlockSize(k) && len <= blockSize
    ensures k > 0 ==> BlockSize(k - 1) < len
  {
    blockSize, k := BLOCK_SIZE, 0;
    while blockSize < len
      invariant blockSize == BlockSize(k) && (k > 0 ==> BlockSize(k - 1) < len)
    {
      blockSize := blockSize * 2;
      k := k + 1;
    }
  }
}
