/** The iterated-hash front end: blocks, padding and a length counter kept in two words. */
module IteratedHash {
  import opened Integers
  import opened Bytes

  // ---- Parameters of a concrete hash ----

  /** The compression function works on a chaining state of type S; digest turns the last state into bytes. */
  datatype Scheme<!S> = Scheme(init: S, compress: (S, seq<Byte>) -> S, digest: S -> seq<Byte>,
                               logBlockSize: nat, wordBytes: nat, bigEndian: bool)
  {
    function BlockSize(): (b: nat)
      ensures 0 < b
    {
      Pow2(logBlockSize)
    }

    /** Values of a counter word. */
    function WordModulus(): (w: nat)
      ensures 0 < w
    {
      Pow2(8 * wordBytes)
    }

    /** The block size is a power of two that a counter word can count, with room for two words and a byte. */
    predicate Usable() {
      1 <= wordBytes && logBlockSize <= 8 * wordBytes && 2 * wordBytes < BlockSize()
    }
  }

  // ---- The hash of a message, as the standards define it ----

  /** n bytes of a number, least significant first. */
  function LittleEndian(x: nat, n: nat): (r: seq<Byte>)
    ensures |r| == n
  {
    if n == 0 then [] else [x % 256] + LittleEndian(x / 256, n - 1)
  }

  function BigEndian(x: nat, n: nat): (r: seq<Byte>)
    ensures |r| == n
  {
    if n == 0 then [] else BigEndian(x / 256, n - 1) + [x % 256]
  }

  function LengthField<S>(h: Scheme<S>, length: nat): (r: seq<Byte>)
    ensures |r| == 2 * h.wordBytes
  {
    if h.bigEndian then BigEndian(8 * length, 2 * h.wordBytes) else LittleEndian(8 * length, 2 * h.wordBytes)
  }

  function ZeroBytes(n: nat): seq<Byte> {
    seq(n, _ => 0)
  }

  /** Zero bytes between the marker and the length field. */
  function FillLength<S>(h: Scheme<S>, length: nat): (z: nat)
    requires h.Usable()
    ensures z < h.BlockSize()
  {
    var last := h.BlockSize() - 2 * h.wordBytes;
    var n := length % h.BlockSize() + 1;
    if n <= last then last - n else h.BlockSize() - n + last
  }

  /** Message, marker bit, zeros, length in bits. */
  function Padded<S>(h: Scheme<S>, message: seq<Byte>): seq<Byte>
    requires h.Usable()
  {
    message + [0x80] + ZeroBytes(FillLength(h, |message|)) + LengthField(h, |message|)
  }

  /** All whole blocks of a byte string, compressed in order. */
  function Compressed<S>(h: Scheme<S>, s: S, bytes: seq<Byte>): S {
    if |bytes| < h.BlockSize() then s else Compressed(h, h.compress(s, bytes[..h.BlockSize()]), bytes[h.BlockSize()..])
  }

  function Hash<S>(h: Scheme<S>, message: seq<Byte>): seq<Byte>
    requires h.Usable()
  {
    h.digest(Compressed(h, h.init, Padded(h, message)))
  }

  /** What follows the marker: zeros, fewer than a block, then the length in bits, most significant byte first
      if the hash is big endian, so that whole blocks are filled. */
  ghost predicate Completes<S>(h: Scheme<S>, length: nat, zeros: seq<Byte>, field: seq<Byte>) {
    |zeros| < h.BlockSize() && (forall i :: 0 <= i < |zeros| ==> zeros[i] == 0) &&
    |field| == 2 * h.wordBytes && (length + 1 + |zeros| + |field|) % h.BlockSize() == 0 &&
    forall i {:trigger field[i]} :: 0 <= i < |field| ==>
      field[i] == 8 * length / Pow2(8 * (if h.bigEndian then |field| - 1 - i else i)) % 256
  }

  lemma {:induction false} LittleEndianAt(x: nat, n: nat, i: nat)
    requires i < n
    ensures LittleEndian(x, n)[i] == x / Pow2(8 * i) % 256
  {
    hide Pow2;
    if i == 0 {
      Pow2Next(0);
    } else {
      LittleEndianAt(x / 256, n - 1, i - 1);
      DivTwice(x, i);
    }
  }

  lemma {:induction false} BigEndianAt(x: nat, n: nat, i: nat)
    requires i < n
    ensures BigEndian(x, n)[n - 1 - i] == x / Pow2(8 * i) % 256
  {
    hide Pow2;
    if i == 0 {
      Pow2Next(0);
    } else {
      BigEndianAt(x / 256, n - 1, i - 1);
      DivTwice(x, i);
    }
  }

  lemma LengthFieldAt<S>(h: Scheme<S>, length: nat, i: nat)
    requires i < 2 * h.wordBytes
    ensures LengthField(h, length)[i] == 8 * length / Pow2(8 * (if h.bigEndian then 2 * h.wordBytes - 1 - i else i)) % 256
  {
    hide Pow2, LittleEndian, BigEndian;
    var n := 2 * h.wordBytes;
    LittleEndianAt(8 * length, n, i);
    BigEndianAt(8 * length, n, n - 1 - i);
  }

  lemma PaddingCompletes<S>(h: Scheme<S>, message: seq<Byte>)
    requires h.Usable()
    ensures Completes(h, |message|, ZeroBytes(FillLength(h, |message|)), LengthField(h, |message|))
  {
    hide Pow2, LengthField;
    PaddedLength(h, message);
    var field := LengthField(h, |message|);
    assert |Padded(h, message)| == |message| + 1 + FillLength(h, |message|) + |field|;
    forall i | 0 <= i < |field|
      ensures field[i] == 8 * |message| / Pow2(8 * (if h.bigEndian then |field| - 1 - i else i)) % 256
    {
      LengthFieldAt(h, |message|, i);
    }
  }

  /** The hash is the digest of the compressed message, marker, zeros and length. */
  lemma HashIsDigest<S>(h: Scheme<S>, message: seq<Byte>)
    requires h.Usable()
    ensures exists zeros: seq<Byte>, field: seq<Byte> {:trigger Completes(h, |message|, zeros, field)} ::
              Completes(h, |message|, zeros, field) &&
              Hash(h, message) == h.digest(Compressed(h, h.init, message + [0x80] + zeros + field))
  {
    hide LengthField, Compressed, FillLength, Completes, ZeroBytes;
    PaddingCompletes(h, message);
  }

  /** There is only one way to complete a message. */
  lemma CompletionUnique<S>(h: Scheme<S>, length: nat, zeros: seq<Byte>, field: seq<Byte>, zeros': seq<Byte>, field': seq<Byte>)
    requires h.Usable() && Completes(h, length, zeros, field) && Completes(h, length, zeros', field')
    ensures zeros == zeros' && field == field'
  {
    hide Pow2;
    SameResidue(length + 1 + |field|, |zeros|, |zeros'|, h.BlockSize());
  }

  lemma SameResidue(n: nat, x: nat, y: nat, b: nat)
    requires 0 < b && x < b && y < b && (n + x) % b == 0 && (n + y) % b == 0
    ensures x == y
  {
    var p, q := (n + x) / b, (n + y) / b;
    QuotientSplit(n + x, b);
    QuotientSplit(n + y, b);
    if p < q { AddMul(p, 1, b); MulMonotone(p + 1, q, b); }
    if q < p { AddMul(q, 1, b); MulMonotone(q + 1, p, b); }
  }

  /** Padding fills whole blocks, and no shorter filling would. */
  lemma PaddedLength<S>(h: Scheme<S>, message: seq<Byte>)
    requires h.Usable()
    ensures |Padded(h, message)| % h.BlockSize() == 0
  {
    hide *;
    PaddedSize(h, message);
    WholeBlocksPadded(|message|, h.BlockSize(), h.BlockSize() - 2 * h.wordBytes);
  }

  lemma PaddedSize<S>(h: Scheme<S>, message: seq<Byte>)
    requires h.Usable()
    ensures var b, last := h.BlockSize(), h.BlockSize() - 2 * h.wordBytes;
            0 <= last < b && |Padded(h, message)| == |message| + 1 + (b - last)
              + (if |message| % b + 1 <= last then last - (|message| % b + 1) else b - (|message| % b + 1) + last)
  {
    hide LengthField;
  }

  lemma WholeBlocksPadded(length: nat, b: nat, last: nat)
    requires 0 <= last < b
    ensures (length + 1 + (b - last) + (if length % b + 1 <= last then last - (length % b + 1) else b - (length % b + 1) + last)) % b == 0
  {
    var q := length / b;
    QuotientSplit(length, b);
    AddMul(q, 1, b);
    AddMul(q, 2, b);
    if length % b + 1 <= last {
      DivModUnique(q * b + b, b, q + 1, 0);
    } else {
      DivModUnique(q * b + 2 * b, b, q + 2, 0);
    }
  }

  // ---- Blocks ----

  lemma {:induction false} CompressedJoin<S>(h: Scheme<S>, s: S, a: seq<Byte>, b: seq<Byte>)
    requires |a| % h.BlockSize() == 0
    ensures Compressed(h, s, a + b) == Compressed(h, Compressed(h, s, a), b)
    decreases |a|
  {
    if a == [] {
      assert a + b == b;
    } else {
      var n := h.BlockSize();
      AtLeastOneBlock(|a|, n);
      assert (a + b)[..n] == a[..n] && (a + b)[n..] == a[n..] + b;
      CompressedJoin(h, h.compress(s, a[..n]), a[n..], b);
    }
  }

  lemma AtLeastOneBlock(n: nat, block: nat)
    requires 0 < block && 0 < n && n % block == 0
    ensures block <= n && (n - block) % block == 0
  {
    var q := n / block;
    assert n == q * block;
    if q <= 0 { Monotone(q, 0, block); }
    Monotone(1, q, block);
    assert (q - 1) * block == q * block - block;
    DivModUnique(n - block, block, q - 1, 0);
  }

  /** Compressing runs through the blocks in order, each into the state the ones before it left. */
  lemma {:induction false} CompressedInOrder<S>(h: Scheme<S>, blocks: seq<seq<Byte>>, states: seq<S>)
    requires |states| == |blocks| + 1
    requires forall i :: 0 <= i < |blocks| ==> |blocks[i]| == h.BlockSize() && states[i + 1] == h.compress(states[i], blocks[i])
    ensures |Joined(blocks)| % h.BlockSize() == 0 && Compressed(h, states[0], Joined(blocks)) == states[|blocks|]
  {
    hide Compressed, Pow2;
    var n := |blocks| - 1;
    if blocks == [] {
      DivModUnique(0, h.BlockSize(), 0, 0);
      CompressedShort(h, states[0], []);
    } else {
      var front := Joined(blocks[..n]);
      CompressedInOrder(h, blocks[..n], states[..n + 1]);
      MultipleNext(|front|, h.BlockSize());
      CompressedJoin(h, states[0], front, blocks[n]);
      CompressedShort(h, states[n], blocks[n]);
    }
  }

  lemma CompressedShort<S>(h: Scheme<S>, s: S, bytes: seq<Byte>)
    ensures |bytes| < h.BlockSize() ==> Compressed(h, s, bytes) == s
    ensures |bytes| == h.BlockSize() ==> Compressed(h, s, bytes) == h.compress(s, bytes)
  {
    if |bytes| == h.BlockSize() {
      assert bytes[..h.BlockSize()] == bytes && bytes[h.BlockSize()..] == [];
    }
  }

  // ---- The counter ----

  /** lo and hi are the two words of a byte count. */
  ghost predicate Counts(lo: nat, hi: nat, length: nat, w: nat)
    requires 0 < w
  {
    lo == length % w && hi == length / w % w
  }

  /** Adding a length, with the carry found by comparison. */
  lemma CountUp(lo: nat, hi: nat, length: nat, n: nat, w: nat)
    requires 0 < w && Counts(lo, hi, length, w)
    ensures 0 <= n / w
    ensures var lo' := (lo + n) % w;
            Counts(lo', ((if lo' < lo then hi + 1 else hi) + n / w) % w, length + n, w)
  {
    QuotientSplit(length, w);
    QuotientSplit(n, w);
    CountWords(length / w, lo, n / w, n % w, w);
    if lo + n % w < w { AddModulo(length / w, n / w, 0, w); } else { AddModulo(length / w, n / w, 1, w); }
  }

  lemma CountWords(q: nat, lo: nat, m: nat, t: nat, w: nat)
    requires lo < w && t < w
    ensures var x, y := lo + (m * w + t), q * w + lo + (m * w + t);
            if lo + t < w then x % w == lo + t && y % w == lo + t && y / w == q + m
            else x % w == lo + t - w && y % w == lo + t - w && y / w == q + m + 1
  {
    Distributed(q, m, w);
    if lo + t < w {
      DivModUnique(lo + (m * w + t), w, m, lo + t);
      DivModUnique(q * w + lo + (m * w + t), w, q + m, lo + t);
    } else {
      Distributed(m, 1, w);
      Distributed(q + m, 1, w);
      DivModUnique(lo + (m * w + t), w, m + 1, lo + t - w);
      DivModUnique(q * w + lo + (m * w + t), w, q + m + 1, lo + t - w);
    }
  }

  lemma Distributed(x: int, y: int, w: int)
    ensures (x + y) * w == x * w + y * w && 1 * w == w
  {
  }

  lemma AddModulo(q: int, m: int, c: int, w: nat)
    requires 0 < w
    ensures (q % w + c + m) % w == (q + m + c) % w
  {
    var d := q / w;
    assert q == d * w + q % w;
    var e := (q % w + c + m) / w;
    assert q % w + c + m == e * w + (q % w + c + m) % w;
    assert (d + e) * w == d * w + e * w;
    DivModUnique(q + m + c, w, d + e, (q % w + c + m) % w);
  }

  /** Left-over bytes can be counted from the low word alone. */
  lemma {:induction false} ModOfLow(length: nat, w: nat, block: nat, k: nat)
    requires 0 < block && w == block * k && 0 < w
    ensures length % w % block == length % block
  {
    var q, r := length / w, length % w;
    assert length == q * w + r;
    var d := r / block;
    assert r == d * block + r % block;
    assert q * (block * k) == q * k * block;
    assert (q * k + d) * block == q * k * block + d * block;
    DivModUnique(length, block, q * k + d, r % block);
  }

  /** The two words of the bit count, as the code forms them from the byte counters. */
  lemma BitCount(lo: nat, hi: nat, length: nat, w: nat)
    requires 0 < w && w % 8 == 0 && Counts(lo, hi, length, w)
    ensures 0 <= lo / (w / 8)
    ensures lo * 8 % w == 8 * length % w
    ensures (lo / (w / 8) + hi * 8) % w == 8 * length / w % w
  {
    var q := length / w;
    assert length == q * w + lo;
    var e := w / 8;
    assert w == 8 * e;
    var t := lo / e;
    assert lo == t * e + lo % e;
    if t < 0 { Monotone(t, -1, e); }
    EightTimes(q, lo, t, lo % e, e, w);
    DivModUnique(8 * lo, w, t, 8 * (lo % e));
    DivModUnique(8 * length, w, 8 * q + t, 8 * (lo % e));
    ScaledModulo(q, t, w);
  }

  lemma EightTimes(q: int, lo: int, t: int, r: int, e: int, w: int)
    requires w == 8 * e && lo == t * e + r
    ensures 8 * lo == t * w + 8 * r && 8 * (q * w + lo) == (8 * q + t) * w + 8 * r
  {
    assert t * (8 * e) == 8 * (t * e);
    assert (8 * q + t) * w == 8 * (q * w) + t * w;
  }

  lemma ScaledModulo(q: int, t: int, w: nat)
    requires 0 < w
    ensures (t + q % w * 8) % w == (8 * q + t) % w
  {
    var d := q / w;
    assert q == d * w + q % w;
    var e := (t + q % w * 8) / w;
    assert t + q % w * 8 == e * w + (t + q % w * 8) % w;
    assert (8 * d + e) * w == 8 * (d * w) + e * w;
    DivModUnique(8 * q + t, w, 8 * d + e, (t + q % w * 8) % w);
  }

  lemma {:induction false} LittleEndianJoin(x: nat, n: nat, k: nat)
    ensures LittleEndian(x, n + k) == LittleEndian(x % Pow2(8 * n), n) + LittleEndian(x / Pow2(8 * n) % Pow2(8 * k), k)
  {
    hide Pow2, LittleEndian;
    LittleEndianSplit(x, n, k);
    LowBytes(x, n);
    LowBytes(x / Pow2(8 * n), k);
  }

  lemma {:induction false} LittleEndianSplit(x: nat, n: nat, k: nat)
    ensures 0 <= x / Pow2(8 * n)
    ensures LittleEndian(x, n + k) == LittleEndian(x, n) + LittleEndian(x / Pow2(8 * n), k)
  {
    if n == 0 {
    } else {
      LittleEndianSplit(x / 256, n - 1, k);
      DivTwice(x, n);
      assert [x % 256] + (LittleEndian(x / 256, n - 1) + LittleEndian(x / Pow2(8 * n), k))
          == [x % 256] + LittleEndian(x / 256, n - 1) + LittleEndian(x / Pow2(8 * n), k);
    }
  }

  lemma DivTwice(x: nat, n: nat)
    requires 0 < n
    ensures 0 <= x / Pow2(8 * n) && x / 256 / Pow2(8 * (n - 1)) == x / Pow2(8 * n)
  {
    var p := Pow2(8 * (n - 1));
    Pow2Add(8, 8 * (n - 1));
    assert Pow2(8) == 256;
    QuotientOfQuotient(x, 256, p);
  }

  /** Only the remainder matters for the low bytes. */
  lemma {:induction false} LowBytes(x: nat, n: nat)
    ensures 0 <= x % Pow2(8 * n) && LittleEndian(x, n) == LittleEndian(x % Pow2(8 * n), n)
  {
    if n > 0 {
      var y := x % Pow2(8 * n);
      hide Pow2;
      NextPower(n);
      QuotientSplit(x, Pow2(8 * n));
      LowByte(x, Pow2(8 * (n - 1)));
      LowBytes(x / 256, n - 1);
      assert y % 256 == x % 256 && y / 256 == x / 256 % Pow2(8 * (n - 1));
    }
  }

  lemma NextPower(n: nat)
    requires 0 < n
    ensures Pow2(8 * n) == 256 * Pow2(8 * (n - 1))
  {
    hide *;
    Pow2Add(8, 8 * (n - 1));
    EightBits();
  }

  lemma EightBits()
    ensures Pow2(8) == 256
  {
  }

  lemma LowByte(x: nat, p: nat)
    requires 0 < p
    ensures 0 <= x % (256 * p) && x % (256 * p) % 256 == x % 256 && 0 <= x / 256 && x % (256 * p) / 256 == x / 256 % p
  {
    var q := x / 256;
    assert x == q * 256 + x % 256;
    var t := q / p;
    assert q == t * p + q % p;
    assert (t * p + q % p) * 256 == t * (256 * p) + q % p * 256;
    DivModUnique(x, 256 * p, t, q % p * 256 + x % 256);
    DivModUnique(q % p * 256 + x % 256, 256, q % p, x % 256);
  }

  lemma {:induction false} BigIsReversedLittle(x: nat, n: nat)
    ensures BigEndian(x, n) == Reversed(LittleEndian(x, n))
  {
    if n > 0 {
      BigIsReversedLittle(x / 256, n - 1);
      assert LittleEndian(x, n)[1..] == LittleEndian(x / 256, n - 1);
    }
  }

  function Reversed(s: seq<Byte>): (r: seq<Byte>)
    ensures |r| == |s|
  {
    if s == [] then [] else Reversed(s[1..]) + [s[0]]
  }

  lemma {:induction false} ReversedJoin(a: seq<Byte>, b: seq<Byte>)
    ensures Reversed(a + b) == Reversed(b) + Reversed(a)
  {
    if a == [] {
      assert a + b == b && Reversed(b) + [] == Reversed(b);
    } else {
      assert (a + b)[1..] == a[1..] + b;
      ReversedJoin(a[1..], b);
    }
  }

  /** A counter word as bytes, in the byte order of the hash. */
  function WordField<S>(h: Scheme<S>, x: nat): (r: seq<Byte>)
    ensures |r| == h.wordBytes
  {
    if h.bigEndian then BigEndian(x, h.wordBytes) else LittleEndian(x, h.wordBytes)
  }

  /** The two words side by side are the length in bits. */
  lemma LengthFromWords<S>(h: Scheme<S>, length: nat, bitsLo: nat, bitsHi: nat)
    requires bitsLo == 8 * length % h.WordModulus() && bitsHi == 8 * length / h.WordModulus() % h.WordModulus()
    ensures LengthField(h, length)
         == if h.bigEndian then WordField(h, bitsHi) + WordField(h, bitsLo) else WordField(h, bitsLo) + WordField(h, bitsHi)
  {
    hide Pow2, LittleEndian, BigEndian;
    var n := h.wordBytes;
    LittleEndianJoin(8 * length, n, n);
    BigIsReversedLittle(8 * length, 2 * n);
    BigIsReversedLittle(bitsLo, n);
    BigIsReversedLittle(bitsHi, n);
    ReversedJoin(LittleEndian(bitsLo, n), LittleEndian(bitsHi, n));
  }

  // ---- The hasher ----

  class Hasher<S> {
    const scheme: Scheme<S>
    var countLo: nat
    var countHi: nat
    /** The block buffer: the left-over bytes of the message at its beginning. */
    const data: array<Byte>
    var state: S

    ghost var message: seq<Byte>
    /** The part of the message that went through the compression function. */
    ghost var whole: seq<Byte>

    ghost predicate Shape()
    {
      scheme.Usable() && data.Length == scheme.BlockSize()
    }

    /** Whole blocks are compressed; the counters count the message. */
    ghost predicate Counting()
      reads this
    {
      Shape() && Counts(countLo, countHi, |message|, scheme.WordModulus()) &&
      |whole| % scheme.BlockSize() == 0 && state == Compressed(scheme, scheme.init, whole)
    }

    ghost predicate Valid()
      reads this, data
    {
      Counting() && whole <= message && |message| < |whole| + scheme.BlockSize() && data[..|message| - |whole|] == message[|whole|..]
    }

    constructor (scheme: Scheme<S>)
      requires scheme.Usable()
      ensures Valid() && message == [] && this.scheme == scheme && fresh(data)
    {
      this.scheme := scheme;
      data := new Byte[scheme.BlockSize()](_ => 0);
      countLo, countHi := 0, 0;
      state := scheme.init;
      message, whole := [], [];
      DivModUnique(0, scheme.WordModulus(), 0, 0);
      DivModUnique(0, scheme.BlockSize(), 0, 0);
      CompressedShort(scheme, scheme.init, []);
    }

    method HashBlock(block: seq<Byte>)
      requires Counting() && |block| == scheme.BlockSize()
      modifies this`state, this`whole
      ensures Counting() && whole == old(whole) + block
    {
      hide Compressed;
      CompressedJoin(scheme, scheme.init, whole, block);
      CompressedShort(scheme, state, block);
      MultipleNext(|whole|, scheme.BlockSize());
      state := scheme.compress(state, block);
      whole := whole + block;
    }

    /** Bytes in the buffer, found from the low counter word. */
    lemma LeftOver()
      requires Counts(countLo, countHi, |message|, scheme.WordModulus()) && scheme.Usable()
      requires |whole| % scheme.BlockSize() == 0 && |whole| <= |message| < |whole| + scheme.BlockSize()
      ensures countLo % scheme.BlockSize() == |message| - |whole| == |message| % scheme.BlockSize()
    {
      hide Pow2;
      var b := scheme.BlockSize();
      Pow2Add(scheme.logBlockSize, 8 * scheme.wordBytes - scheme.logBlockSize);
      ModOfLow(|message|, scheme.WordModulus(), b, Pow2(8 * scheme.wordBytes - scheme.logBlockSize));
      QuotientSplit(|whole|, b);
      DivModUnique(|message|, b, |whole| / b, |message| - |whole|);
    }

    method Update(input: seq<Byte>)
      requires Valid()
      modifies this`countLo, this`countHi, this`state, this`message, this`whole, data
      ensures Valid() && message == old(message) + input
    {
      hide Compressed, Pow2, Counts;
      LeftOver();
      var num := countLo % scheme.BlockSize();
      Count(input);
      Absorb(input, num);
    }

    method Count(input: seq<Byte>)
      requires Counting()
      modifies this`countLo, this`countHi, this`message
      ensures Counting() && message == old(message) + input
    {
      hide Compressed, Pow2;
      var w := scheme.WordModulus();
      CountUp(countLo, countHi, |message|, |input|, w);
      var tmp := countLo;
      countLo := (tmp + |input|) % w;
      countHi := ((if countLo < tmp then countHi + 1 else countHi) + |input| / w) % w;
      message := message + input;
    }

    /** The left-over block first, then whole blocks, then the new left-over. */
    method Absorb(input: seq<Byte>, num: nat)
      requires Counting() && num < scheme.BlockSize() && message == whole + data[..num] + input
      modifies this`state, this`whole, data
      ensures Valid()
    {
      hide Compressed, Pow2, Counts, Overwritten;
      var blockSize := scheme.BlockSize();
      var rest := input;
      if num != 0 {
        if num + |rest| >= blockSize {
          FillBlock(rest[..blockSize - num], num);
          assert input == input[..blockSize - num] + input[blockSize - num..];
          rest := rest[blockSize - num..];
        } else {
          ghost var before := data[..];
          Memcpy(data, num, rest);
          Appended(before, num, rest);
          assert whole + data[..num + |rest|] == message;
          Prefix(whole, data[..num + |rest|], message);
          return;
        }
      }
      assert num == 0 ==> whole + data[..num] + input == whole + input;
      while |rest| >= blockSize
        invariant Counting() && whole + rest == message
        decreases |rest|
      {
        assert rest == rest[..blockSize] + rest[blockSize..];
        assert whole + rest[..blockSize] + rest[blockSize..] == whole + rest;
        HashBlock(rest[..blockSize]);
        rest := rest[blockSize..];
      }
      ghost var before := data[..];
      Memcpy(data, 0, rest);
      Appended(before, 0, rest);
      Prefix(whole, rest, message);
    }

    method FillBlock(input: seq<Byte>, num: nat)
      requires Counting() && num + |input| == scheme.BlockSize()
      modifies this`state, this`whole, data
      ensures Counting() && whole == old(whole) + old(data[..num]) + input
    {
      hide Compressed, Pow2, Counts, Overwritten;
      ghost var before := data[..];
      Memcpy(data, num, input);
      Appended(before, num, input);
      assert data[..] == data[..num + |input|];
      HashBlock(data[..]);
      Associative(old(whole), before[..num], input);
    }

    /** The marker and zeros; a block without room for the length is compressed and a new one begun. */
    method PadLastBlock(lastBlockSize: nat, padFirst: Byte)
      requires Valid() && 0 < lastBlockSize < scheme.BlockSize()
      modifies this`state, this`whole, data
      ensures Counting() && |whole| % scheme.BlockSize() == 0
      ensures var n := |old(message)| % scheme.BlockSize() + 1;
              var z := if n <= lastBlockSize then lastBlockSize - n else scheme.BlockSize() - n + lastBlockSize;
              whole + data[..lastBlockSize] == message + [padFirst] + ZeroBytes(z)
    {
      hide Compressed, Pow2, Counts, Overwritten;
      var blockSize := scheme.BlockSize();
      LeftOver();
      var num := countLo % blockSize;
      ghost var d0 := data[..];
      Memcpy(data, num, [padFirst]);
      Appended(d0, num, [padFirst]);
      num := num + 1;
      ghost var d1 := data[..];
      Associative(whole, d0[..num - 1], [padFirst]);
      ZeroFill(lastBlockSize, num);
    }

    /** Zeros up to the length field, which the next block holds when this one has no room for it. */
    method ZeroFill(lastBlockSize: nat, num: nat)
      requires Counting() && 0 < lastBlockSize < scheme.BlockSize() && 0 < num <= scheme.BlockSize()
      modifies this`state, this`whole, data
      ensures Counting()
      ensures whole + data[..lastBlockSize] == old(whole) + old(data[..num])
                + ZeroBytes(if num <= lastBlockSize then lastBlockSize - num else scheme.BlockSize() - num + lastBlockSize)
    {
      hide Compressed, Pow2, Counts, Overwritten;
      var blockSize := scheme.BlockSize();
      ghost var d1 := data[..];
      if num <= lastBlockSize {
        Memcpy(data, num, ZeroBytes(lastBlockSize - num));
        Appended(d1, num, ZeroBytes(lastBlockSize - num));
        Associative(whole, d1[..num], ZeroBytes(lastBlockSize - num));
      } else {
        ghost var before := whole + d1[..num];
        FillBlock(ZeroBytes(blockSize - num), num);
        ghost var d2 := data[..];
        Memcpy(data, 0, ZeroBytes(lastBlockSize));
        FilledFront(d2, ZeroBytes(lastBlockSize));
        ZerosJoin(before, blockSize - num, lastBlockSize);
      }
    }

    /** Final, truncated to a size not larger than the digest; the hasher starts again. */
    method TruncatedFinal(size: nat) returns (digest: seq<Byte>)
      requires Valid() && size <= |Hash(scheme, message)|
      modifies this, data
      ensures digest == Hash(scheme, old(message))[..size]
      ensures exists zeros: seq<Byte>, field: seq<Byte> {:trigger Completes(scheme, |old(message)|, zeros, field)} ::
                Completes(scheme, |old(message)|, zeros, field) &&
                |digest| == size && digest <= scheme.digest(Compressed(scheme, scheme.init, old(message) + [0x80] + zeros + field))
      ensures Valid() && message == []
    {
      hide Compressed, Pow2, Counts, Overwritten, LengthField, WordField, Completes;
      HashIsDigest(scheme, message);
      var last := scheme.BlockSize() - 2 * scheme.wordBytes;
      PadLastBlock(last, 0x80);
      AppendLength(last);
      digest := scheme.digest(state)[..size];
      Restart();
    }

    /** The length field completes the last block. */
    method AppendLength(last: nat)
      requires Counting() && last == scheme.BlockSize() - 2 * scheme.wordBytes
      requires whole + data[..last] == message + [0x80] + ZeroBytes(FillLength(scheme, |message|))
      modifies this`state, this`whole, data
      ensures Counting() && whole == Padded(scheme, message)
    {
      hide Compressed, Pow2, Counts, Overwritten, LengthField, WordField, ZeroBytes;
      ghost var d := data[..];
      var field := CountField();
      Memcpy(data, last, field);
      Appended(d, last, field);
      assert data[..] == data[..last + |field|];
      HashBlock(data[..]);
      JoinedThrice(old(whole), d[..last], field);
    }

    /** GetBitCountHi and GetBitCountLo, in the order of the hash. */
    method CountField() returns (field: seq<Byte>)
      requires Counting()
      ensures field == LengthField(scheme, |message|)
    {
      hide Pow2, LittleEndian, BigEndian, Compressed;
      var w := scheme.WordModulus();
      NextPower(scheme.wordBytes);
      BitCount(countLo, countHi, |message|, w);
      QuotientSplit(countLo * 8, w);
      QuotientSplit(countLo / (w / 8) + countHi * 8, w);
      var hi := (countLo / (w / 8) + countHi * 8) % w;
      var lo := countLo * 8 % w;
      LengthFromWords(scheme, |message|, lo, hi);
      field := if scheme.bigEndian then WordField(scheme, hi) + WordField(scheme, lo) else WordField(scheme, lo) + WordField(scheme, hi);
    }

    method Restart()
      requires Shape()
      modifies this
      ensures Valid() && message == []
    {
      countLo, countHi := 0, 0;
      state := scheme.init;
      message, whole := [], [];
      DivModUnique(0, scheme.WordModulus(), 0, 0);
      DivModUnique(0, scheme.BlockSize(), 0, 0);
      CompressedShort(scheme, scheme.init, []);
    }
  }

  lemma JoinedThrice(a: seq<Byte>, b: seq<Byte>, c: seq<Byte>)
    ensures a + (b + c) == a + b + c
  {
  }

  lemma Appended(s: seq<Byte>, n: nat, x: seq<Byte>)
    requires n + |x| <= |s|
    ensures Overwritten(s, n, x)[..n + |x|] == s[..n] + x
  {
  }

  lemma Prefix(a: seq<Byte>, b: seq<Byte>, m: seq<Byte>)
    requires a + b == m
    ensures a <= m && |m| - |a| == |b| && m[|a|..] == b
  {
  }

  lemma FilledFront(s: seq<Byte>, x: seq<Byte>)
    requires |x| <= |s|
    ensures Overwritten(s, 0, x)[..|x|] == x
  {
  }

  lemma ZerosJoin(m: seq<Byte>, i: nat, j: nat)
    ensures m + ZeroBytes(i) + ZeroBytes(j) == m + ZeroBytes(i + j)
  {
  }

  /** Any way of cutting a message into updates gives the hash of the message. */
  method HashPieces<S>(scheme: Scheme<S>, pieces: seq<seq<Byte>>, size: nat) returns (digest: seq<Byte>)
    requires scheme.Usable() && size <= |Hash(scheme, Joined(pieces))|
    ensures digest == Hash(scheme, Joined(pieces))[..size]
    ensures var message := Joined(pieces);
            exists zeros: seq<Byte>, field: seq<Byte> {:trigger Completes(scheme, |message|, zeros, field)} ::
              Completes(scheme, |message|, zeros, field) &&
              |digest| == size && digest <= scheme.digest(Compressed(scheme, scheme.init, message + [0x80] + zeros + field))
  {
    hide Hash, Completes, Compressed;
    var hasher := new Hasher(scheme);
    for i := 0 to |pieces|
      invariant fresh(hasher) && fresh(hasher.data) && hasher.Valid() && hasher.scheme == scheme && hasher.message == Joined(pieces[..i])
    {
      assert pieces[..i + 1][..i] == pieces[..i];
      hasher.Update(pieces[i]);
    }
    assert pieces[..|pieces|] == pieces;
    digest := hasher.TruncatedFinal(size);
  }
}
