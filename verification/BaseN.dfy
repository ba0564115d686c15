/** BaseN_Encoder and BaseN_Decoder: bytes cut into groups of 1 to 7 bits and back. */
module BaseN {
  import opened Integers
  import opened Bytes

  // ---- Bit strings ----

  /** The w low bits of v, most significant first. */
  function Bits(v: nat, w: nat): (r: seq<bool>)
    ensures |r| == w
  {
    if w == 0 then [] else Bits(v / 2, w - 1) + [v % 2 == 1]
  }

  /** The bits of a list of w-bit values. */
  function AllBits(vs: seq<nat>, w: nat): (r: seq<bool>) {
    if vs == [] then [] else AllBits(vs[..|vs| - 1], w) + Bits(vs[|vs| - 1], w)
  }

  function Zeros(n: nat): (r: seq<bool>)
    ensures |r| == n
  {
    seq(n, _ => false)
  }

  lemma AllBitsAppend(vs: seq<nat>, v: nat, w: nat)
    ensures AllBits(vs + [v], w) == AllBits(vs, w) + Bits(v, w)
  {
    assert (vs + [v])[..|vs|] == vs;
  }

  lemma {:induction false} AllBitsLength(vs: seq<nat>, w: nat)
    ensures |AllBits(vs, w)| == w * |vs|
  {
    if vs != [] {
      AllBitsLength(vs[..|vs| - 1], w);
      assert w * (|vs| - 1) + w == w * |vs|;
    }
  }

  /** Two numbers side by side. */
  lemma {:induction false} BitsJoin(p: nat, r: nat, a: nat, s: nat)
    requires r < Pow2(s)
    ensures 0 <= p * Pow2(s) && Bits(p * Pow2(s) + r, a + s) == Bits(p, a) + Bits(r, s)
  {
    if s == 0 {
      assert p * Pow2(0) == p;
      assert Bits(p, a) + [] == Bits(p, a);
    } else {
      var x := p * Pow2(s - 1);
      BitsJoin(p, r / 2, a, s - 1);
      assert p * Pow2(s) == 2 * x;
      assert (2 * x + r) / 2 == x + r / 2 && (2 * x + r) % 2 == r % 2;
      assert Bits(p, a) + Bits(r / 2, s - 1) + [r % 2 == 1] == Bits(p, a) + (Bits(r / 2, s - 1) + [r % 2 == 1]);
    }
  }

  lemma {:induction false} BitsZero(w: nat)
    ensures Bits(0, w) == Zeros(w)
  {
    if w > 0 { BitsZero(w - 1); }
  }

  lemma {:induction false} BitsInjective(v: nat, v': nat, w: nat)
    requires v < Pow2(w) && v' < Pow2(w) && Bits(v, w) == Bits(v', w)
    ensures v == v'
  {
    if w > 0 {
      assert Bits(v, w)[..w - 1] == Bits(v / 2, w - 1) && Bits(v', w)[..w - 1] == Bits(v' / 2, w - 1);
      assert Bits(v, w)[w - 1] == (v % 2 == 1) && Bits(v', w)[w - 1] == (v' % 2 == 1);
      BitsInjective(v / 2, v' / 2, w - 1);
    }
  }

  ghost predicate Below(vs: seq<nat>, limit: nat) {
    forall i :: 0 <= i < |vs| ==> vs[i] < limit
  }

  lemma {:induction false} AllBitsInjective(vs: seq<nat>, vs': seq<nat>, w: nat)
    requires |vs| == |vs'| && Below(vs, Pow2(w)) && Below(vs', Pow2(w)) && AllBits(vs, w) == AllBits(vs', w)
    ensures vs == vs'
  {
    if vs != [] {
      var n := |vs| - 1;
      AllBitsLength(vs[..n], w);
      AllBitsLength(vs'[..n], w);
      PrefixEqual(AllBits(vs[..n], w), Bits(vs[n], w), AllBits(vs'[..n], w), Bits(vs'[n], w));
      AllBitsInjective(vs[..n], vs'[..n], w);
      BitsInjective(vs[n], vs'[n], w);
      assert vs == vs[..n] + [vs[n]] && vs' == vs'[..n] + [vs'[n]];
    }
  }

  lemma PrefixEqual<T>(a: seq<T>, b: seq<T>, c: seq<T>, d: seq<T>)
    requires |a| == |c| && a + b == c + d
    ensures a == c && b == d
  {
    assert a == (a + b)[..|a|] && c == (c + d)[..|a|];
    assert b == (a + b)[|a|..] && d == (c + d)[|a|..];
  }

  // ---- What encoding and decoding mean ----

  /** vs are the k-bit groups of the bytes, the last one filled up with zero bits. */
  ghost predicate Encodes(vs: seq<nat>, data: seq<Byte>, k: nat) {
    Below(vs, Pow2(k)) && exists z: nat {:trigger Zeros(z)} :: z < k && AllBits(vs, k) == AllBits(data, 8) + Zeros(z)
  }

  /** data are the whole bytes in the k-bit groups, left-over bits dropped. */
  ghost predicate Decodes(data: seq<Byte>, vs: seq<nat>, k: nat) {
    AllBits(data, 8) <= AllBits(vs, k) && |AllBits(vs, k)| < |AllBits(data, 8)| + 8
  }

  /** Decoding the groups of an encoding gives the bytes back, for every group size. */
  lemma DecodesEncoded(data: seq<Byte>, vs: seq<nat>, out: seq<Byte>, k: nat)
    requires 1 <= k <= 7 && Encodes(vs, data, k) && Decodes(out, vs, k)
    ensures out == data
  {
    hide AllBits;
    var z: nat :| z < k && AllBits(vs, k) == AllBits(data, 8) + Zeros(z);
    AllBitsLength(data, 8);
    AllBitsLength(out, 8);
    var rest := AllBits(vs, k)[|AllBits(out, 8)|..];
    assert AllBits(vs, k) == AllBits(out, 8) + rest;
    PrefixEqual(AllBits(out, 8), rest, AllBits(data, 8), Zeros(z));
    assert Pow2(8) == 256;
    AllBitsInjective(out, data, 8);
  }

  /** The groups are determined by the bytes. */
  lemma EncodingUnique(data: seq<Byte>, vs: seq<nat>, vs': seq<nat>, k: nat)
    requires 1 <= k <= 7 && Encodes(vs, data, k) && Encodes(vs', data, k)
    ensures vs == vs'
  {
    var z: nat :| z < k && AllBits(vs, k) == AllBits(data, 8) + Zeros(z);
    var z': nat :| z' < k && AllBits(vs', k) == AllBits(data, 8) + Zeros(z');
    AllBitsLength(vs, k);
    AllBitsLength(vs', k);
    SameCount(|vs|, |vs'|, k, |AllBits(data, 8)|, z, z');
    AllBitsInjective(vs, vs', k);
  }

  /** Three bytes in base 64, as section 4 of RFC 4648 cuts them: from the most significant bit on. */
  lemma Base64Groups(a: Byte, b: Byte, c: Byte, vs: seq<nat>)
    ensures Encodes(vs, [a, b, c], 6) <==> vs == [a / 4, a % 4 * 16 + b / 16, b % 16 * 4 + c / 64, c % 64]
  {
    hide Encodes, Bits;
    var groups := [a / 4, a % 4 * 16 + b / 16, b % 16 * 4 + c / 64, c % 64];
    ThreeBytesFourGroups(a, b, c);
    if Encodes(vs, [a, b, c], 6) {
      EncodingUnique([a, b, c], vs, groups, 6);
    }
  }

  lemma ThreeBytesFourGroups(a: Byte, b: Byte, c: Byte)
    ensures Encodes([a / 4, a % 4 * 16 + b / 16, b % 16 * 4 + c / 64, c % 64], [a, b, c], 6)
  {
    hide Bits, AllBits, Pow2;
    SmallPowers();
    BitsJoin(a / 4, a % 4, 6, 2);
    BitsJoin(a % 4, b / 16, 2, 4);
    BitsJoin(b / 16, b % 16, 4, 4);
    BitsJoin(b % 16, c / 64, 4, 2);
    BitsJoin(c / 64, c % 64, 2, 6);
    var groups: seq<nat> := [a / 4, a % 4 * 16 + b / 16, b % 16 * 4 + c / 64, c % 64];
    BitsOfThree(a, b, c, 8);
    BitsOfThree(groups[0], groups[1], groups[2], 6);
    AllBitsAppend(groups[..3], groups[3], 6);
    assert groups[..3] + [groups[3]] == groups && groups[..3] == [groups[0], groups[1], groups[2]];
    assert AllBits(groups, 6) == AllBits([a, b, c], 8) + Zeros(0);
  }

  lemma SmallPowers()
    ensures Pow2(2) == 4 && Pow2(4) == 16 && Pow2(6) == 64
  {
  }

  lemma BitsOfThree(x: nat, y: nat, z: nat, w: nat)
    ensures AllBits([x, y, z], w) == Bits(x, w) + Bits(y, w) + Bits(z, w)
  {
    hide *;
    AllBitsNone(w);
    AllBitsAppend([], x, w);
    AllBitsAppend([x], y, w);
    AllBitsAppend([x, y], z, w);
    assert [] + [x] == [x] && [x] + [y] == [x, y] && [x, y] + [z] == [x, y, z];
  }

  lemma AllBitsNone(w: nat)
    ensures AllBits([], w) == []
  {
  }

  lemma SameCount(n: nat, n': nat, k: nat, bits: nat, z: nat, z': nat)
    requires k > 0 && z < k && z' < k && k * n == bits + z && k * n' == bits + z'
    ensures n == n' && z == z'
  {
    if n < n' { Multiply(n + 1, n', k); } else if n' < n { Multiply(n' + 1, n, k); }
  }

  lemma Multiply(x: int, y: int, k: int)
    requires x <= y && 0 <= k
    ensures k * x <= k * y && (k * (x - 1)) + k == k * x
  {
  }

  // ---- Text ----

  function Mapped(alphabet: seq<Byte>, vs: seq<nat>): (r: seq<Byte>)
    requires Below(vs, |alphabet|)
    ensures |r| == |vs|
  {
    seq(|vs|, i requires 0 <= i < |vs| => alphabet[vs[i]])
  }

  type Lookup = s: seq<int> | |s| == 256 witness seq(256, _ => -1)

  /** The values of the characters that have one; all others are skipped. */
  function Values(lookup: Lookup, text: seq<Byte>): seq<nat> {
    if text == [] then []
    else
      var v := lookup[text[|text| - 1]];
      Values(lookup, text[..|text| - 1]) + (if 0 <= v < 256 then [v] else [])
  }

  lemma ValuesAppend(lookup: Lookup, text: seq<Byte>, c: Byte)
    ensures Values(lookup, text + [c]) == Values(lookup, text) + (if 0 <= lookup[c] < 256 then [lookup[c]] else [])
  {
    assert (text + [c])[..|text|] == text;
  }

  lemma ValuesStart(lookup: Lookup, text: seq<Byte>)
    ensures Values(lookup, []) == Values(lookup, text[..0]) == []
  {
  }

  lemma {:induction false} ValuesJoin(lookup: Lookup, a: seq<Byte>, b: seq<Byte>)
    ensures Values(lookup, a + b) == Values(lookup, a) + Values(lookup, b)
  {
    hide Values;
    if b == [] {
      NothingAdded(a);
      ValuesStart(lookup, b);
      NothingAdded(Values(lookup, a));
    } else {
      var front, c := b[..|b| - 1], b[|b| - 1];
      LastApart(b);
      Associative(a, front, [c]);
      ValuesJoin(lookup, a, front);
      ValuesAppend(lookup, a + front, c);
      ValuesAppend(lookup, front, c);
      Associative(Values(lookup, a), Values(lookup, front), if 0 <= lookup[c] < 256 then [lookup[c]] else []);
    }
  }

  lemma {:induction false} ValuesSkipped(lookup: Lookup, text: seq<Byte>)
    requires forall i :: 0 <= i < |text| ==> !(0 <= lookup[text[i]] < 256)
    ensures Values(lookup, text) == []
  {
    if text != [] { ValuesSkipped(lookup, text[..|text| - 1]); }
  }

  /** The lookup table inverts the alphabet and knows no other character. */
  ghost predicate Inverts(lookup: Lookup, alphabet: seq<Byte>) {
    |alphabet| <= 256 && forall i {:trigger alphabet[i]} :: 0 <= i < |alphabet| ==> lookup[alphabet[i]] == i
  }

  lemma {:induction false} ValuesOfMapped(lookup: Lookup, alphabet: seq<Byte>, vs: seq<nat>)
    requires Inverts(lookup, alphabet) && Below(vs, |alphabet|)
    ensures Values(lookup, Mapped(alphabet, vs)) == vs
  {
    if vs != [] {
      var n := |vs| - 1;
      ValuesOfMapped(lookup, alphabet, vs[..n]);
      assert Mapped(alphabet, vs) == Mapped(alphabet, vs[..n]) + [alphabet[vs[n]]];
      ValuesAppend(lookup, Mapped(alphabet, vs[..n]), alphabet[vs[n]]);
    }
  }

  /** The groups as characters, then perhaps padding up to a whole block. */
  ghost predicate TextFor(text: seq<Byte>, vs: seq<nat>, alphabet: seq<Byte>, padding: int, block: nat) {
    0 < block && Below(vs, |alphabet|) && |vs| <= |text| && text[..|vs|] == Mapped(alphabet, vs) &&
    if padding == -1 then |text| == |vs|
    else |text| % block == 0 && |text| < |vs| + block && forall i :: |vs| <= i < |text| ==> text[i] == padding
  }

  /** Encoder output for a message. */
  ghost predicate EncodedText(text: seq<Byte>, data: seq<Byte>, alphabet: seq<Byte>, k: nat, padding: int, block: nat) {
    exists vs: seq<nat> {:trigger Encodes(vs, data, k)} :: Encodes(vs, data, k) && TextFor(text, vs, alphabet, padding, block)
  }

  lemma ValuesOfText(lookup: Lookup, text: seq<Byte>, vs: seq<nat>, alphabet: seq<Byte>, padding: int, block: nat)
    requires TextFor(text, vs, alphabet, padding, block) && Inverts(lookup, alphabet)
    requires padding == -1 || (0 <= padding < 256 && !(0 <= lookup[padding] < 256))
    ensures Values(lookup, text) == vs
  {
    hide Values;
    ValuesOfMapped(lookup, alphabet, vs);
    ValuesSkipped(lookup, text[|vs|..]);
    assert text == text[..|vs|] + text[|vs|..];
    ValuesJoin(lookup, text[..|vs|], text[|vs|..]);
  }

  /** Round trip: any text with the encoder's alphabet characters in order, and anything without a value in
      between, decodes to the original bytes. */
  lemma RoundTrip(data: seq<Byte>, text: seq<Byte>, received: seq<Byte>, out: seq<Byte>,
                  alphabet: seq<Byte>, lookup: Lookup, k: nat, padding: int, block: nat)
    requires 1 <= k <= 7 && EncodedText(text, data, alphabet, k, padding, block) && Inverts(lookup, alphabet)
    requires padding == -1 || (0 <= padding < 256 && !(0 <= lookup[padding] < 256))
    requires Values(lookup, received) == Values(lookup, text)
    requires Decodes(out, Values(lookup, received), k)
    ensures out == data
  {
    hide Encodes, Decodes, Values, TextFor, Inverts;
    var vs: seq<nat> :| Encodes(vs, data, k) && TextFor(text, vs, alphabet, padding, block);
    ValuesOfText(lookup, text, vs, alphabet, padding, block);
    DecodesEncoded(data, vs, out, k);
  }

  // ---- Shifts inside a byte ----

  lemma DivCancel(r: nat, a: nat, b: nat)
    requires 0 < a && 0 < b
    ensures 0 < a * b && r * a / (a * b) == r / b
  {
    Monotone(1, a, b);
    var q, m := r / b, r % b;
    ScaledSum(q, m, a, b);
    Monotone(m + 1, b, a);
    Monotone(0, m, a);
    DivModUnique(r * a, a * b, q, m * a);
  }

  lemma ScaledSum(q: int, m: int, a: int, b: int)
    ensures (q * b + m) * a == q * (a * b) + m * a && (m + 1) * a == m * a + a && b * a == a * b
  {
    assert q * b * a == q * (a * b);
  }

  lemma BelowProduct(v: nat, a: nat, b: nat)
    requires v < a && 0 < b
    ensures 0 <= v * b && v * b + b <= a * b
  {
    Monotone(0, v, b);
    MulMonotone(v + 1, a, b);
    AddMul(v, 1, b);
  }

  /** Bits left-aligned in a byte: taking the top t of s bits off. */
  lemma TakeTop(r: nat, s: nat, t: nat, b: nat)
    requires t <= s <= 8 && r < Pow2(s) && b == Shl(r, 8 - s)
    ensures Shr(b, 8 - t) == Shr(r, s - t) < Pow2(t)
    ensures Shl(b, t) % 256 == Shl(LowBits(r, s - t), 8 - (s - t))
  {
    hide *;
    TopBits(r, s, t, b);
    BitsBelow(r, s, t, b);
  }

  lemma TopBits(r: nat, s: nat, t: nat, b: nat)
    requires t <= s <= 8 && r < Pow2(s) && b == Shl(r, 8 - s)
    ensures Shr(b, 8 - t) == Shr(r, s - t) < Pow2(t)
  {
    hide *;
    ShlIs(r, 8 - s);
    ShrIs(b, 8 - t);
    ShrIs(r, s - t);
    Pow2Add(8 - s, s - t);
    Pow2Add(t, s - t);
    DivCancel(r, Pow2(8 - s), Pow2(s - t));
    TopBelow(r, Pow2(t), Pow2(s - t));
  }

  lemma BitsBelow(r: nat, s: nat, t: nat, b: nat)
    requires t <= s <= 8 && b == Shl(r, 8 - s)
    ensures Shl(b, t) % 256 == Shl(LowBits(r, s - t), 8 - (s - t))
  {
    hide *;
    ShlIs(r, 8 - s);
    ShlIs(b, t);
    LowBitsIs(r, s - t);
    ShlIs(LowBits(r, s - t), 8 - (s - t));
    Pow2Add(8 - s, t);
    Pow2Add(8 - s + t, s - t);
    ByteIs8Bits();
    RestAligned(r, Pow2(8 - s), Pow2(s - t), Pow2(t), Pow2(8 - s + t));
  }

  lemma ByteIs8Bits()
    ensures Pow2(8) == 256
  {
  }

  lemma TopBelow(r: nat, t: nat, b: nat)
    requires 0 < b && r < t * b
    ensures r / b < t
  {
    var q := r / b;
    assert r == q * b + r % b;
    if t <= q { Monotone(t, q, b); }
  }

  lemma RestAligned(r: nat, a: nat, b: nat, t: nat, at: nat)
    requires 0 < b && 0 < at && at == a * t && at * b == 256
    ensures 0 <= r * a && r * a * t % 256 == r % b * at
  {
    var q, m := r / b, r % b;
    assert r == q * b + m;
    TopSplit(q, m, a, b, t, at);
    Monotone(m + 1, b, at);
    Monotone(0, m, at);
    ScaledSum(0, m, at, b);
    Monotone(0, r, a);
    DivModUnique(r * a * t, 256, q, m * at);
  }

  lemma TopSplit(q: int, m: int, a: int, b: int, t: int, at: int)
    requires at == a * t && at * b == 256
    ensures (q * b + m) * a * t == q * 256 + m * at
  {
    assert (q * b + m) * a * t == (q * b + m) * (a * t);
    assert (q * b + m) * at == q * (at * b) + m * at;
  }

  /** Fewer bits than there is room for. */
  lemma ShiftDown(r: nat, s: nat, t: nat, b: nat)
    requires s < t <= 8 && r < Pow2(s) && b == Shl(r, 8 - s)
    ensures Shr(b, 8 - t) == Shl(r, t - s) < Pow2(t)
  {
    hide *;
    ShlIs(r, 8 - s);
    ShrIs(b, 8 - t);
    ShlIs(r, t - s);
    Pow2Add(t - s, 8 - t);
    Pow2Add(s, t - s);
    MulEqual(r, Pow2(8 - s), r, Pow2(t - s) * Pow2(8 - t));
    ExactQuotient(r, Pow2(t - s), Pow2(8 - t));
    BelowProduct(r, Pow2(s), Pow2(t - s));
  }

  lemma ExactQuotient(r: nat, x: nat, y: nat)
    requires 0 < y
    ensures r * (x * y) / y == r * x
  {
    assert r * (x * y) == r * x * y;
    DivModUnique(r * (x * y), y, r * x, 0);
  }

  // ---- The encoder ----

  /** n units fill whole groups of the given size. */
  ghost predicate WholeGroups(unit: nat, n: nat, part: nat)
    requires 0 < part
  {
    unit * n % part == 0
  }

  /** The least common multiple of the two sizes: the first multiple of one that is a multiple of the other. */
  method OutputBlockSize(unit: nat, part: nat) returns (i: nat, ghost units: nat)
    requires 0 < unit && 0 < part
    ensures 0 < i && i == unit * units && i % part == 0 && i <= unit * part
    ensures forall n :: 0 < n < units ==> !WholeGroups(unit, n, part)
  {
    i, units := unit, 1;
    Monotone(1, part, unit);
    while i % part != 0
      invariant 0 < i == unit * units && units <= part && i <= unit * part
      invariant forall n :: 0 < n < units ==> !WholeGroups(unit, n, part)
      decreases part - units
    {
      if units == part { DivModUnique(unit * part, part, unit, 0); }
      i := i + unit;
      units := units + 1;
      Monotone(units, part, unit);
    }
  }

  /** The part of a group that the bits so far make up, with the room below it still empty. */
  lemma GroupFilled(p: nat, bitPos: nat, t: nat, y: nat)
    requires p < Pow2(bitPos) && y < Pow2(t) && bitPos + t <= 8
    ensures 0 <= Shl(p, t) && Shl(p, t) + y < Pow2(bitPos + t) <= 256
    ensures Or(Shl(p, t), y) == Shl(p, t) + y
    ensures Bits(Shl(p, t) + y, bitPos + t) == Bits(p, bitPos) + Bits(y, t)
  {
    hide *;
    ShlIs(p, t);
    Pow2Add(bitPos, t);
    Pow2Monotone(bitPos + t, 8);
    ByteIs8Bits();
    BelowProduct(p, Pow2(bitPos), Pow2(t));
    BitOrDisjoint(p, y, t);
    OrIs(p * Pow2(t), y);
    BitsJoin(p, y, bitPos, t);
  }

  lemma OrIs(a: Byte, b: Byte)
    ensures Or(a, b) == BitOr(a, b)
  {
    hide BitOr;
  }

  /** Moving y bits from the rest to a group. */
  lemma BitsMoved(done: seq<bool>, p: seq<bool>, y: seq<bool>, rest: seq<bool>)
    ensures done + (p + y) + rest == done + p + (y + rest)
  {
  }

  lemma RestSplits(r: nat, s: nat, t: nat)
    requires t <= s && r < Pow2(s)
    ensures 0 <= Shr(r, s - t) && 0 <= LowBits(r, s - t) < Pow2(s - t)
    ensures Bits(r, s) == Bits(Shr(r, s - t), t) + Bits(LowBits(r, s - t), s - t)
  {
    hide *;
    ShrIs(r, s - t);
    LowBitsIs(r, s - t);
    QuotientSplit(r, Pow2(s - t));
    BitsJoin(Shr(r, s - t), LowBits(r, s - t), t, s - t);
  }

  /** The bits in n groups of k bits. */
  ghost function BitCount(k: nat, n: nat): nat {
    NatProduct(k, n);
    k * n
  }

  lemma BitCountNext(k: nat, n: nat)
    ensures BitCount(k, 0) == 0 && BitCount(k, n + 1) == BitCount(k, n) + k
  {
    MulComm(k, n + 1);
    AddMul(n, 1, k);
  }

  /** A number of bytes that fills whole blocks. */
  ghost predicate Whole(n: nat, block: nat) {
    0 < block && n % block == 0
  }

  lemma WholeNext(n: nat, block: nat)
    requires Whole(n, block)
    ensures Whole(n + block, block)
  {
    MultipleNext(n, block);
  }

  lemma NothingIsWhole(block: nat)
    requires 0 < block
    ensures Whole(0, block)
  {
    DivModUnique(0, block, 0, 0);
  }

  /** Bits in the block that are still to come leave room for a character. */
  lemma RoomForChar(k: nat, bytePos: nat, bitPos: nat, s: nat, block: nat, used: nat, blockBytes: nat)
    requires 0 < k && 0 < s && BitCount(k, block) == 8 * blockBytes && used < blockBytes && BitCount(k, bytePos) + bitPos + s == 8 * (used + 1)
    ensures bytePos < block
  {
    if block <= bytePos { Multiply(block, bytePos, k); }
  }

  lemma BlockComplete(k: nat, bytePos: nat, bitPos: nat, block: nat, used: nat, blockBytes: nat)
    requires bitPos < k && BitCount(k, block) == 8 * blockBytes && BitCount(k, bytePos) + bitPos == 8 * used && used <= blockBytes && bytePos <= block
    ensures bytePos == block ==> bitPos == 0
    ensures bytePos < block ==> used < blockBytes
  {
    if bytePos < block { Multiply(bytePos + 1, block, k); }
  }

  class BaseNEncoder {
    const alphabet: seq<Byte>
    const bitsPerChar: nat
    const padding: int
    const outputBlockSize: nat
    const outBuf: array<Byte>
    var bytePos: nat
    var bitPos: nat
    /** What the attached transformation has received. */
    var output: seq<Byte>

    ghost const blockBytes: nat
    ghost var consumed: seq<Byte>
    ghost var chars: seq<nat>
    ghost var flushed: nat
    ghost var partial: nat
    ghost var used: nat

    ghost predicate Shape() {
      1 <= bitsPerChar <= 7 && |alphabet| >= Pow2(bitsPerChar) && outBuf.Length == outputBlockSize && 0 < outputBlockSize &&
      BitCount(bitsPerChar, outputBlockSize) == 8 * blockBytes && (padding == -1 || 0 <= padding < 256)
    }

    /** The characters in the buffer, and those handed on before. */
    ghost predicate Buffered()
      reads this, outBuf
    {
      Shape() && bytePos <= outputBlockSize && bitPos < bitsPerChar && partial < Pow2(bitPos) &&
      |chars| == flushed + bytePos && Below(chars, Pow2(bitsPerChar)) && Whole(flushed, outputBlockSize) &&
      (forall j {:trigger outBuf[j]} :: 0 <= j < bytePos ==> outBuf[j] == chars[flushed + j]) && output == Mapped(alphabet, chars[..flushed])
    }

    /** The unfinished character lies at the top of its byte; everything after it is zero. */
    ghost predicate Clean()
      requires Shape()
      reads this, outBuf
    {
      bytePos < outputBlockSize && bitPos <= bitsPerChar ==>
        outBuf[bytePos] == Shl(partial, bitsPerChar - bitPos) && forall j {:trigger outBuf[j]} :: bytePos < j < outputBlockSize ==> outBuf[j] == 0
    }

    ghost predicate Valid()
      reads this, outBuf
    {
      Buffered() && bytePos < outputBlockSize && (bytePos == 0 ==> bitPos == 0) && (bytePos > 0 ==> Clean()) &&
      BitCount(bitsPerChar, bytePos) + bitPos == 8 * used && used < blockBytes &&
      AllBits(chars, bitsPerChar) + Bits(partial, bitPos) == AllBits(consumed, 8)
    }

    constructor (alphabet: seq<Byte>, log2Base: nat, padding: int)
      requires 1 <= log2Base <= 7 && |alphabet| >= Pow2(log2Base) && (padding == -1 || 0 <= padding < 256)
      ensures Valid() && consumed == [] && output == [] && fresh(outBuf)
      ensures this.alphabet == alphabet && bitsPerChar == log2Base && this.padding == padding
    {
      var i;
      ghost var bytes;
      i, bytes := OutputBlockSize(8, log2Base);
      BlockOf(i, log2Base);
      this.alphabet, bitsPerChar, this.padding := alphabet, log2Base, padding;
      outputBlockSize := i / log2Base;
      blockBytes := bytes;
      outBuf := new Byte[i / log2Base](_ => 0);
      bytePos, bitPos, output := 0, 0, [];
      consumed, chars, flushed, partial, used := [], [], 0, 0, 0;
      new;
      NothingIsWhole(outputBlockSize);
      ByteIs8Bits();
    }

    /** One pass through the inner loop: bits of the source byte move to the current character. */
    method AddBits(b: Byte, bitsLeft: nat, ghost r: nat) returns (b': Byte, bitsLeft': nat, ghost r': nat)
      requires Buffered() && Clean() && bytePos < outputBlockSize && 1 <= bitsLeft <= 8
      requires r < Pow2(bitsLeft) && b == Shl(r, 8 - bitsLeft)
      modifies this`bytePos, this`bitPos, this`chars, this`partial, outBuf
      ensures Buffered() && Clean() && bitsLeft' < bitsLeft && r' < Pow2(bitsLeft') && (bitsLeft' > 0 ==> b' == Shl(r', 8 - bitsLeft'))
      ensures BitCount(bitsPerChar, bytePos) + bitPos + bitsLeft' == old(BitCount(bitsPerChar, bytePos) + bitPos) + bitsLeft
      ensures AllBits(chars, bitsPerChar) + Bits(partial, bitPos) + Bits(r', bitsLeft')
           == old(AllBits(chars, bitsPerChar) + Bits(partial, bitPos)) + Bits(r, bitsLeft)
    {
      hide AllBits, Bits, Pow2, Or, Mapped, BitCount, Whole, Shl, Shr, LowBits;
      var bitsLeftInTarget := bitsPerChar - bitPos;
      if bitsLeft >= bitsLeftInTarget {
        b', bitsLeft', r' := FillChar(b, bitsLeft, r);
      } else {
        KeepBits(b, bitsLeft, r);
        b', bitsLeft', r' := 0, 0, 0;
        NoBitsLeft();
      }
    }

    method FillChar(b: Byte, bitsLeft: nat, ghost r: nat) returns (b': Byte, bitsLeft': nat, ghost r': nat)
      requires Buffered() && Clean() && bytePos < outputBlockSize && bitsPerChar - bitPos <= bitsLeft <= 8
      requires r < Pow2(bitsLeft) && b == Shl(r, 8 - bitsLeft)
      modifies this`bytePos, this`bitPos, this`chars, this`partial, outBuf
      ensures Buffered() && Clean() && bitsLeft' < bitsLeft && r' < Pow2(bitsLeft') && b' == Shl(r', 8 - bitsLeft')
      ensures BitCount(bitsPerChar, bytePos) + bitPos + bitsLeft' == old(BitCount(bitsPerChar, bytePos) + bitPos) + bitsLeft
      ensures AllBits(chars, bitsPerChar) + Bits(partial, bitPos) + Bits(r', bitsLeft')
           == old(AllBits(chars, bitsPerChar) + Bits(partial, bitPos)) + Bits(r, bitsLeft)
    {
      hide AllBits, Bits, Pow2, Or, Mapped, BitCount, Whole, Shl, Shr, LowBits;
      var t := bitsPerChar - bitPos;
      TakeTop(r, bitsLeft, t, b);
      RestSplits(r, bitsLeft, t);
      GroupFilled(partial, bitPos, t, Shr(b, 8 - t));
      ghost var group := Shl(partial, t) + Shr(b, 8 - t);
      ghost var chars0, partial0, bitPos0, bytePos0 := chars, partial, bitPos, bytePos;
      outBuf[bytePos] := Or(outBuf[bytePos], Shr(b, 8 - t));
      bitPos := 0;
      bytePos := bytePos + 1;
      bitsLeft' := bitsLeft - t;
      b' := Shl(b, t) % 256;
      r' := LowBits(r, bitsLeft');
      chars := chars + [group];
      partial := 0;
      NothingPartial(bitsPerChar);
      FilledChar(chars0, group, partial0, bitPos0, Shr(r, bitsLeft'), r', bitsLeft', t, bitsPerChar);
      assert chars[..flushed] == chars0[..flushed];
      BitCountNext(bitsPerChar, bytePos0);
    }

    method KeepBits(b: Byte, bitsLeft: nat, ghost r: nat)
      requires Buffered() && Clean() && bytePos < outputBlockSize && 1 <= bitsLeft < bitsPerChar - bitPos
      requires r < Pow2(bitsLeft) && b == Shl(r, 8 - bitsLeft)
      modifies this`bitPos, this`partial, outBuf
      ensures Buffered() && Clean() && bitPos == old(bitPos) + bitsLeft
      ensures Bits(partial, bitPos) == old(Bits(partial, bitPos)) + Bits(r, bitsLeft)
    {
      hide AllBits, Bits, Pow2, Or, Mapped, BitCount, Whole, Shl, Shr, LowBits;
      var t := bitsPerChar - bitPos;
      ShiftDown(r, bitsLeft, t, b);
      GroupFilled(partial, bitPos, t, Shr(b, 8 - t));
      GroupFilled(partial, bitPos, bitsLeft, r);
      KeptAligned(partial, r, bitsLeft, t);
      outBuf[bytePos] := Or(outBuf[bytePos], Shr(b, 8 - t));
      partial := Shl(partial, bitsLeft) + r;
      bitPos := bitPos + bitsLeft;
    }

    /** The buffer before the first byte of a block. */
    method ClearBlock()
      requires Valid() && bytePos == 0
      modifies outBuf
      ensures Valid() && Clean()
    {
      hide AllBits, Bits, Mapped, Pow2, BitCount, Whole, Shl, Shr, LowBits;
      NothingPartial(bitsPerChar);
      forall i | 0 <= i < outputBlockSize {
        outBuf[i] := 0;
      }
    }

    /** A whole block of characters goes out. */
    method OutputBlock()
      requires Buffered() && bytePos == outputBlockSize && bitPos == 0
      modifies this`bytePos, this`bitPos, this`output, this`flushed, outBuf
      ensures Buffered() && bytePos == 0 && bitPos == 0
    {
      hide AllBits, Bits, Pow2, BitCount, Whole, Shl, Shr, LowBits;
      MapBuffer(bytePos);
      MappedJoin(alphabet, chars, flushed, bytePos);
      assert outBuf[..] == Mapped(alphabet, chars[flushed..flushed + bytePos]);
      output := output + outBuf[..];
      WholeNext(flushed, outputBlockSize);
      flushed := flushed + bytePos;
      bytePos := 0;
      bitPos := 0;
    }

    /** Values in the buffer become characters of the alphabet. */
    method MapBuffer(n: nat)
      requires Shape() && n <= outputBlockSize && flushed + n <= |chars| && Below(chars, Pow2(bitsPerChar))
      requires forall j {:trigger outBuf[j]} :: 0 <= j < n ==> outBuf[j] == chars[flushed + j]
      modifies outBuf
      ensures forall j {:trigger outBuf[j]} :: 0 <= j < n ==> outBuf[j] == alphabet[chars[flushed + j]]
      ensures forall j {:trigger outBuf[j]} :: n <= j < outputBlockSize ==> outBuf[j] == old(outBuf[j])
    {
      hide Pow2;
      for i := 0 to n
        invariant forall j {:trigger outBuf[j]} :: 0 <= j < i ==> outBuf[j] == alphabet[chars[flushed + j]]
        invariant forall j {:trigger outBuf[j]} :: i <= j < outputBlockSize ==> outBuf[j] == old(outBuf[j])
      {
        outBuf[i] := alphabet[outBuf[i]];
      }
    }

    method PutByte(source: Byte)
      requires Valid()
      modifies this`bytePos, this`bitPos, this`output, this`consumed, this`chars, this`flushed, this`partial, this`used, outBuf
      ensures Valid() && consumed == old(consumed) + [source]
    {
      hide AllBits, Bits, Pow2, Mapped, BitCount, Whole, Shl, Shr, LowBits;
      if bytePos == 0 {
        ClearBlock();
      }
      MoveBits(source);
      AllBitsAppend(consumed, source, 8);
      consumed := consumed + [source];
      used := used + 1;
      FinishByte();
    }

    /** All bits of the source byte, most significant first. */
    method MoveBits(source: Byte)
      requires Valid() && Clean()
      modifies this`bytePos, this`bitPos, this`chars, this`partial, outBuf
      ensures Buffered() && Clean() && BitCount(bitsPerChar, bytePos) + bitPos == 8 * (used + 1)
      ensures AllBits(chars, bitsPerChar) + Bits(partial, bitPos) == AllBits(consumed, 8) + Bits(source, 8)
    {
      hide AllBits, Bits, Pow2, Mapped, BitCount, Whole, Shl, Shr, LowBits;
      var b, bitsLeftInSource := source, 8;
      ghost var r: nat, all := source, AllBits(consumed, 8) + Bits(source, 8);
      WholeByte(source);
      while bitsLeftInSource != 0
        invariant Buffered() && Clean() && bitsLeftInSource <= 8 && r < Pow2(bitsLeftInSource)
        invariant bitsLeftInSource > 0 ==> b == Shl(r, 8 - bitsLeftInSource)
        invariant AllBits(chars, bitsPerChar) + Bits(partial, bitPos) + Bits(r, bitsLeftInSource) == all
        invariant BitCount(bitsPerChar, bytePos) + bitPos + bitsLeftInSource == 8 * (used + 1)
        decreases bitsLeftInSource
      {
        RoomForChar(bitsPerChar, bytePos, bitPos, bitsLeftInSource, outputBlockSize, used, blockBytes);
        b, bitsLeftInSource, r := AddBits(b, bitsLeftInSource, r);
      }
      RestIsZero(r);
      NoBitsLeft();
    }

    method FinishByte()
      requires Buffered() && Clean() && BitCount(bitsPerChar, bytePos) + bitPos == 8 * used && 0 < used <= blockBytes
      requires AllBits(chars, bitsPerChar) + Bits(partial, bitPos) == AllBits(consumed, 8)
      modifies this`bytePos, this`bitPos, this`output, this`flushed, this`used, outBuf
      ensures Valid()
    {
      hide AllBits, Bits, Pow2, Mapped, BitCount, Whole, Shl, Shr, LowBits;
      BlockComplete(bitsPerChar, bytePos, bitPos, outputBlockSize, used, blockBytes);
      NotEmptyAfterByte(bitsPerChar, bytePos, bitPos, used);
      if bytePos == outputBlockSize {
        OutputBlock();
        used := 0;
        Eights(blockBytes);
        BlockNotEmpty(bitsPerChar, outputBlockSize, blockBytes, 8);
      }
    }

    method Put(begin: seq<Byte>)
      requires Valid()
      modifies this`bytePos, this`bitPos, this`output, this`consumed, this`chars, this`flushed, this`partial, this`used, outBuf
      ensures Valid() && consumed == old(consumed) + begin
    {
      hide *;
      for i := 0 to |begin|
        invariant Valid() && consumed == old(consumed) + begin[..i]
      {
        PutByte(begin[i]);
        FrontNext(begin, i);
        Associative(old(consumed), begin[..i], [begin[i]]);
      }
      assert begin[..|begin|] == begin;
    }

    /** The end of the message: the last group is filled up, the last block perhaps padded. */
    method MessageEnd() returns (text: seq<Byte>)
      requires Valid()
      modifies this, outBuf
      ensures EncodedText(text, old(consumed), alphabet, bitsPerChar, padding, outputBlockSize)
      ensures Valid() && consumed == [] && output == []
    {
      hide AllBits, Bits, Pow2, Encodes, TextFor, Mapped, BitCount, Whole, Shl, Shr, LowBits;
      CompleteLast();
      text := FinishText();
      Restart();
    }

    /** The last group counts as a character even where not all its bits were given. */
    method CompleteLast()
      requires Valid()
      modifies this`bytePos, this`bitPos, this`chars, this`partial
      ensures Buffered() && Encodes(chars, consumed, bitsPerChar)
    {
      hide AllBits, Bits, Pow2, Encodes, Mapped, BitCount, Whole, Shl, Shr, LowBits;
      PositivePower(0);
      if bitPos > 0 {
        ghost var z := bitsPerChar - bitPos;
        LastGroup(chars, partial, bitPos, z, bitsPerChar);
        ghost var chars0 := chars;
        chars := chars + [Shl(partial, z)];
        EncodesBy(chars, consumed, bitsPerChar, z);
        assert chars[..flushed] == chars0[..flushed];
        bytePos := bytePos + 1;
        bitPos, partial := 0, 0;
      } else {
        NoLastGroup(chars, partial, bitsPerChar);
        EncodesBy(chars, consumed, bitsPerChar, 0);
      }
    }

    method FinishText() returns (text: seq<Byte>)
      requires Buffered()
      modifies this`bytePos, outBuf
      ensures TextFor(text, chars, alphabet, padding, outputBlockSize)
    {
      hide AllBits, Bits, Pow2, Mapped, BitCount, Whole, Shl, Shr, LowBits;
      MapBuffer(bytePos);
      ghost var mapped := outBuf[..bytePos];
      BufferMapped(mapped, alphabet, chars, flushed, Pow2(bitsPerChar));
      MappedJoin(alphabet, chars, flushed, bytePos);
      assert chars[..flushed + bytePos] == chars;
      if padding != -1 && bytePos > 0 {
        PadBlock();
      }
      text := output + outBuf[..bytePos];
      PaddedText(text, output, mapped, outBuf[..bytePos], chars, alphabet, padding, outputBlockSize);
    }

    method PadBlock()
      requires Shape() && 0 < bytePos <= outputBlockSize && padding != -1
      modifies this`bytePos, outBuf
      ensures bytePos == outputBlockSize && outBuf[..old(bytePos)] == old(outBuf[..bytePos])
      ensures forall j {:trigger outBuf[j]} :: old(bytePos) <= j < outputBlockSize ==> outBuf[j] == padding
    {
      for i := bytePos to outputBlockSize
        invariant bytePos == old(bytePos) && outBuf[..bytePos] == old(outBuf[..bytePos])
        invariant forall j {:trigger outBuf[j]} :: bytePos <= j < i ==> outBuf[j] == padding
      {
        outBuf[i] := padding;
      }
      bytePos := outputBlockSize;
    }

    method Restart()
      requires Shape()
      modifies this
      ensures Valid() && consumed == [] && output == []
    {
      bytePos, bitPos, output := 0, 0, [];
      consumed, chars, flushed, partial, used := [], [], 0, 0, 0;
      NothingIsWhole(outputBlockSize);
      Eights(blockBytes);
      BlockNotEmpty(bitsPerChar, outputBlockSize, blockBytes, 8);
    }
  }

  lemma MappedJoin(alphabet: seq<Byte>, vs: seq<nat>, i: nat, n: nat)
    requires i + n <= |vs| && Below(vs, |alphabet|)
    ensures Mapped(alphabet, vs[..i]) + Mapped(alphabet, vs[i..i + n]) == Mapped(alphabet, vs[..i + n])
  {
  }

  lemma BufferMapped(mapped: seq<Byte>, alphabet: seq<Byte>, vs: seq<nat>, i: nat, limit: nat)
    requires Below(vs, limit) && limit <= |alphabet| && i + |mapped| <= |vs|
    requires forall j {:trigger mapped[j]} :: 0 <= j < |mapped| ==> mapped[j] == alphabet[vs[i + j]]
    ensures mapped == Mapped(alphabet, vs[i..i + |mapped|])
  {
  }

  /** Characters handed on, characters of the last block, and padding. */
  lemma PaddedText(text: seq<Byte>, output: seq<Byte>, mapped: seq<Byte>, last: seq<Byte>, vs: seq<nat>,
                   alphabet: seq<Byte>, padding: int, block: nat)
    requires 0 < block && Below(vs, |alphabet|) && output + mapped == Mapped(alphabet, vs) && text == output + last
    requires Whole(|output|, block) && |mapped| <= |last| && last[..|mapped|] == mapped && |mapped| <= block
    requires if padding == -1 || mapped == [] then last == mapped
             else |last| == block && forall j {:trigger last[j]} :: |mapped| <= j < block ==> last[j] == padding
    ensures TextFor(text, vs, alphabet, padding, block)
  {
    assert text[..|vs|] == output + last[..|mapped|];
    if padding != -1 && mapped != [] {
      MultipleNext(|output|, block);
      forall i | |vs| <= i < |text| ensures text[i] == padding {
        assert text[i] == last[i - |output|];
      }
    }
  }

  lemma WholeByte(b: Byte)
    ensures Pow2(0) == 1 && Pow2(8) == 256 && b == Shl(b, 0)
  {
  }

  lemma RestIsZero(r: nat)
    requires r < Pow2(0)
    ensures r == 0
  {
  }

  lemma NotEmptyAfterByte(k: nat, bytePos: nat, bitPos: nat, used: nat)
    requires 0 < used && bitPos < k <= 7 && BitCount(k, bytePos) + bitPos == 8 * used
    ensures bytePos > 0
  {
    if bytePos == 0 { Monotone(0, 0, k); }
  }

  lemma BlockNotEmpty(k: nat, block: nat, units: nat, unit: nat)
    requires 0 < k && 0 < block && BitCount(k, block) == BitCount(unit, units)
    ensures 0 < units && BitCount(k, 0) == 0 && BitCount(unit, 0) == 0
  {
    Multiply(1, block, k);
    BitCountNext(k, 0);
    BitCountNext(unit, 0);
  }

  lemma Eights(n: nat)
    ensures BitCount(8, n) == 8 * n
  {
  }

  /** The unfinished group, filled up with zero bits. */
  lemma LastGroup(chars: seq<nat>, partial: nat, bitPos: nat, z: nat, k: nat)
    requires 0 < z && bitPos + z == k <= 8 && partial < Pow2(bitPos)
    ensures 0 <= Shl(partial, z) < Pow2(k)
    ensures AllBits(chars + [Shl(partial, z)], k) == AllBits(chars, k) + Bits(partial, bitPos) + Zeros(z)
  {
    hide AllBits, Bits, Pow2, Shl;
    PositivePower(z);
    GroupFilled(partial, bitPos, z, 0);
    BitsZero(z);
    AllBitsAppend(chars, Shl(partial, z), k);
    assert AllBits(chars, k) + (Bits(partial, bitPos) + Zeros(z)) == AllBits(chars, k) + Bits(partial, bitPos) + Zeros(z);
  }

  lemma PositivePower(z: nat)
    ensures 0 < Pow2(z)
  {
  }

  lemma NoLastGroup(chars: seq<nat>, partial: nat, k: nat)
    requires partial < Pow2(0)
    ensures AllBits(chars, k) == AllBits(chars, k) + Bits(partial, 0) + Zeros(0)
  {
    assert Bits(partial, 0) == [];
  }

  lemma EncodesBy(vs: seq<nat>, data: seq<Byte>, k: nat, z: nat)
    requires Below(vs, Pow2(k)) && z < k && AllBits(vs, k) == AllBits(data, 8) + Zeros(z)
    ensures Encodes(vs, data, k)
  {
  }

  lemma BlockOf(i: nat, k: nat)
    requires 0 < k && 0 < i && i % k == 0
    ensures 0 < i / k && k * (i / k) == i
  {
    var q := i / k;
    assert i == q * k;
    if q <= 0 { Monotone(q, 0, k); }
    Monotone(q, q, k);
  }

  lemma NoBitsLeft()
    ensures Pow2(0) == 1 && Bits(0, 0) == []
    ensures forall x: seq<bool> {:trigger x + Bits(0, 0)} :: x + Bits(0, 0) == x
  {
  }

  lemma NothingPartial(k: nat)
    ensures Pow2(0) == 1 && Shl(0, k) == 0 && Bits(0, 0) == []
  {
  }

  lemma FilledChar(chars: seq<nat>, group: nat, partial: nat, bitPos: nat, top: nat, r': nat, s': nat, t: nat, k: nat)
    requires bitPos + t == k && Bits(group, k) == Bits(partial, bitPos) + Bits(top, t)
    ensures AllBits(chars + [group], k) + Bits(0, 0) + Bits(r', s') == AllBits(chars, k) + Bits(partial, bitPos) + (Bits(top, t) + Bits(r', s'))
  {
    AllBitsAppend(chars, group, k);
    assert AllBits(chars + [group], k) + [] == AllBits(chars + [group], k);
    BitsMoved(AllBits(chars, k), Bits(partial, bitPos), Bits(top, t), Bits(r', s'));
  }

  lemma KeptAligned(p: nat, r: nat, s: nat, t: nat)
    requires s <= t
    ensures Shl(p, t) + Shl(r, t - s) == Shl(Shl(p, s) + r, t - s)
  {
    hide *;
    ShlIs(p, t);
    ShlIs(r, t - s);
    ShlIs(p, s);
    ShlIs(Shl(p, s) + r, t - s);
    Pow2Add(s, t - s);
    AddMul(Shl(p, s), r, Pow2(t - s));
    MulAssoc(p, Pow2(s), Pow2(t - s));
  }

  // ---- The decoder ----

  function IsAlpha(c: Byte): bool {
    65 <= c <= 90 || 97 <= c <= 122
  }

  function ToUpper(c: Byte): Byte {
    if 97 <= c <= 122 then c - 32 else c
  }

  function ToLower(c: Byte): Byte {
    if 65 <= c <= 90 then c + 32 else c
  }

  /** Characters that decode to the same value. */
  predicate SameCharacter(a: Byte, b: Byte, caseInsensitive: bool): (same: bool)
    ensures same <==> a == b || (caseInsensitive && ((65 <= a <= 90 && b == a + 32) || (97 <= a <= 122 && b == a - 32)))
  {
    a == b || (caseInsensitive && ToUpper(a) == ToUpper(b))
  }

  ghost predicate DistinctCharacters(alphabet: seq<Byte>, n: nat, caseInsensitive: bool) {
    forall i, j :: 0 <= i < j < n <= |alphabet| ==> !SameCharacter(alphabet[i], alphabet[j], caseInsensitive)
  }

  /** InitializeDecodingLookupArray, for an alphabet without repetitions. */
  method DecodingLookup(alphabet: seq<Byte>, base: nat, caseInsensitive: bool) returns (lookup: Lookup)
    requires base <= |alphabet| && base <= 256 && DistinctCharacters(alphabet, base, caseInsensitive)
    ensures forall c: Byte, i {:trigger SameCharacter(alphabet[i], c, caseInsensitive)} ::
              0 <= i < base && SameCharacter(alphabet[i], c, caseInsensitive) ==> lookup[c] == i
    ensures forall c: Byte {:trigger lookup[c]} ::
              lookup[c] == -1 || (0 <= lookup[c] < base && SameCharacter(alphabet[lookup[c]], c, caseInsensitive))
  {
    lookup := seq(256, _ => -1);
    for n := 0 to base
      invariant forall c: Byte, i {:trigger SameCharacter(alphabet[i], c, caseInsensitive)} ::
                  0 <= i < n && SameCharacter(alphabet[i], c, caseInsensitive) ==> lookup[c] == i
      invariant forall c: Byte {:trigger lookup[c]} ::
                  lookup[c] == -1 || (0 <= lookup[c] < n && SameCharacter(alphabet[lookup[c]], c, caseInsensitive))
    {
      if caseInsensitive && IsAlpha(alphabet[n]) {
        lookup := lookup[ToUpper(alphabet[n]) := n];
        lookup := lookup[ToLower(alphabet[n]) := n];
      } else {
        lookup := lookup[alphabet[n] := n];
      }
    }
  }

  /** The table inverts the alphabet, whether or not case counts. */
  lemma LookupInverts(alphabet: seq<Byte>, lookup: Lookup, caseInsensitive: bool)
    requires |alphabet| <= 256
    requires forall c: Byte, i {:trigger SameCharacter(alphabet[i], c, caseInsensitive)} ::
               0 <= i < |alphabet| && SameCharacter(alphabet[i], c, caseInsensitive) ==> lookup[c] == i
    ensures Inverts(lookup, alphabet)
  {
    forall i | 0 <= i < |alphabet| ensures lookup[alphabet[i]] == i {
      assert SameCharacter(alphabet[i], alphabet[i], caseInsensitive);
    }
  }

  class BaseNDecoder {
    const lookup: Lookup
    const bitsPerChar: nat
    const outputBlockSize: nat
    const outBuf: array<Byte>
    var bytePos: nat
    var bitPos: nat
    var output: seq<Byte>

    ghost const blockChars: nat
    ghost var values: seq<nat>
    ghost var bytes: seq<Byte>
    ghost var flushed: nat
    ghost var partial: nat
    ghost var used: nat

    ghost predicate Shape() {
      1 <= bitsPerChar <= 7 && outBuf.Length == outputBlockSize && 0 < outputBlockSize &&
      8 * outputBlockSize == BitCount(bitsPerChar, blockChars) && forall c {:trigger lookup[c]} :: 0 <= c < 256 ==> lookup[c] < Pow2(bitsPerChar)
    }

    ghost predicate Buffered()
      reads this, outBuf
    {
      Shape() && bytePos <= outputBlockSize && bitPos < 8 && partial < Pow2(bitPos) && |bytes| == flushed + bytePos &&
      (forall j {:trigger outBuf[j]} :: 0 <= j < bytePos ==> outBuf[j] == bytes[flushed + j]) && output == bytes[..flushed]
    }

    ghost predicate Clean()
      requires Shape()
      reads this, outBuf
    {
      bytePos < outputBlockSize && bitPos <= 8 ==>
        outBuf[bytePos] == Shl(partial, 8 - bitPos) && forall j {:trigger outBuf[j]} :: bytePos < j < outputBlockSize ==> outBuf[j] == 0
    }

    ghost predicate Valid()
      reads this, outBuf
    {
      Buffered() && bytePos < outputBlockSize && (bytePos > 0 || bitPos > 0 ==> Clean()) &&
      8 * bytePos + bitPos == BitCount(bitsPerChar, used) && used < blockChars &&
      AllBits(bytes, 8) + Bits(partial, bitPos) == AllBits(values, bitsPerChar)
    }

    constructor (lookup: Lookup, log2Base: nat)
      requires 1 <= log2Base <= 7 && forall c {:trigger lookup[c]} :: 0 <= c < 256 ==> lookup[c] < Pow2(log2Base)
      ensures Valid() && values == [] && output == [] && fresh(outBuf)
      ensures this.lookup == lookup && bitsPerChar == log2Base
    {
      var i;
      ghost var chars;
      i, chars := OutputBlockSize(log2Base, 8);
      BlockOf(i, 8);
      this.lookup, bitsPerChar := lookup, log2Base;
      outputBlockSize := i / 8;
      blockChars := chars;
      outBuf := new Byte[i / 8](_ => 0);
      bytePos, bitPos, output := 0, 0, [];
      values, bytes, flushed, partial, used := [], [], 0, 0, 0;
      new;
      NothingPartial(8);
      Eights(outputBlockSize);
      BlockNotEmpty(8, outputBlockSize, blockChars, bitsPerChar);
    }

    method ClearBlock()
      requires Valid() && bytePos == 0 && bitPos == 0
      modifies outBuf
      ensures Valid() && Clean()
    {
      hide AllBits, Bits, Pow2, BitCount, Whole, Shl, Shr, LowBits;
      PositivePower(0);
      NothingPartial(8);
      RestIsZero(partial);
      forall i | 0 <= i < outputBlockSize {
        outBuf[i] := 0;
      }
    }

    method OutputBlock()
      requires Buffered() && bytePos == outputBlockSize && bitPos == 0
      modifies this`bytePos, this`bitPos, this`output, this`flushed
      ensures Buffered() && bytePos == 0 && bitPos == 0
    {
      hide Pow2;
      assert outBuf[..] == bytes[flushed..flushed + bytePos];
      assert bytes[..flushed + bytePos] == bytes[..flushed] + bytes[flushed..flushed + bytePos];
      output := output + outBuf[..];
      flushed := flushed + bytePos;
      bytePos := 0;
      bitPos := 0;
    }

    /** A value that fits in the current byte. */
    method AddWithin(value: nat)
      requires Buffered() && Clean() && bytePos < outputBlockSize && value < Pow2(bitsPerChar) && bitPos + bitsPerChar <= 8
      modifies this`bytePos, this`bitPos, this`bytes, this`partial, outBuf
      ensures Buffered() && Clean() && 8 * bytePos + bitPos == old(8 * bytePos + bitPos) + bitsPerChar
      ensures AllBits(bytes, 8) + Bits(partial, bitPos) == old(AllBits(bytes, 8) + Bits(partial, bitPos)) + Bits(value, bitsPerChar)
    {
      hide AllBits, Bits, Pow2, Or, BitCount, Whole, Shl, Shr, LowBits;
      var newBitPos := bitPos + bitsPerChar;
      var t := 8 - bitPos;
      ShiftUp(value, bitsPerChar, t);
      GroupFilled(partial, bitPos, t, Shl(value, 8 - newBitPos));
      GroupFilled(partial, bitPos, bitsPerChar, value);
      KeptAligned(partial, value, bitsPerChar, t);
      ghost var p', done := Shl(partial, bitsPerChar) + value, AllBits(bytes, 8);
      assert done + (Bits(partial, bitPos) + Bits(value, bitsPerChar)) == done + Bits(partial, bitPos) + Bits(value, bitsPerChar);
      outBuf[bytePos] := Or(outBuf[bytePos], Shl(value, 8 - newBitPos));
      bitPos, partial := newBitPos, p';
      if bitPos >= 8 {
        NextByte();
      }
    }

    /** The byte at the current position is complete. */
    method NextByte()
      requires Shape() && bytePos < outputBlockSize && bitPos == 8 && partial < Pow2(8) && |bytes| == flushed + bytePos
      requires forall j {:trigger outBuf[j]} :: 0 <= j < bytePos ==> outBuf[j] == bytes[flushed + j]
      requires output == bytes[..flushed] && outBuf[bytePos] == Shl(partial, 0)
      requires forall j {:trigger outBuf[j]} :: bytePos < j < outputBlockSize ==> outBuf[j] == 0
      modifies this`bytePos, this`bitPos, this`bytes, this`partial
      ensures Buffered() && Clean() && bitPos == 0 && bytePos == old(bytePos) + 1
      ensures AllBits(bytes, 8) + Bits(partial, bitPos) == old(AllBits(bytes, 8) + Bits(partial, bitPos))
    {
      hide AllBits, Bits, Pow2, BitCount, Whole, Shl, Shr, LowBits;
      NothingPartial(8);
      WholeByte(outBuf[bytePos]);
      WholeByte(partial);
      ghost var bytes0 := bytes;
      AllBitsAppend(bytes, partial, 8);
      bytes := bytes + [partial];
      assert bytes[..flushed] == bytes0[..flushed];
      partial := 0;
      bitPos := bitPos - 8;
      bytePos := bytePos + 1;
      NoBitsLeft();
    }

    /** A value that completes the current byte and begins the next one. */
    method AddAcross(value: nat)
      requires Buffered() && Clean() && bytePos + 1 < outputBlockSize && value < Pow2(bitsPerChar) && bitPos + bitsPerChar > 8
      modifies this`bytePos, this`bitPos, this`bytes, this`partial, outBuf
      ensures Buffered() && Clean() && 8 * bytePos + bitPos == old(8 * bytePos + bitPos) + bitsPerChar
      ensures AllBits(bytes, 8) + Bits(partial, bitPos) == old(AllBits(bytes, 8) + Bits(partial, bitPos)) + Bits(value, bitsPerChar)
    {
      hide AllBits, Bits, Pow2, Or, BitCount, Whole, Shl, Shr, LowBits;
      var newBitPos := bitPos + bitsPerChar;
      var t := 8 - bitPos;
      var s := newBitPos - 8;
      RestSplits(value, bitsPerChar, t);
      ShiftAcross(value, bitsPerChar, s);
      GroupFilled(partial, bitPos, t, Shr(value, s));
      NothingPartial(8);
      GroupFilled(0, 0, 8, Shl(LowBits(value, s), 8 - s));
      ghost var p', rest, bytes0 := Shl(partial, t) + Shr(value, s), LowBits(value, s), bytes;
      AllBitsAppend(bytes, p', 8);
      BitsMoved(AllBits(bytes, 8), Bits(partial, bitPos), Bits(Shr(value, s), t), Bits(rest, s));
      outBuf[bytePos] := Or(outBuf[bytePos], Shr(value, newBitPos - 8));
      outBuf[bytePos + 1] := Or(outBuf[bytePos + 1], Add8(Shl(value, 16 - newBitPos), 0));
      bytes := bytes + [p'];
      assert bytes[..flushed] == bytes0[..flushed];
      partial := rest;
      bitPos := newBitPos - 8;
      bytePos := bytePos + 1;
    }

    method PutByte(c: Byte)
      requires Valid()
      modifies this`bytePos, this`bitPos, this`output, this`values, this`bytes, this`flushed, this`partial, this`used, outBuf
      ensures Valid() && values == old(values) + (if 0 <= lookup[c] < 256 then [lookup[c]] else [])
    {
      hide AllBits, Bits, Pow2, BitCount, Whole, Shl, Shr, LowBits;
      var value := lookup[c];
      NothingAdded(values);
      if value < 0 || value >= 256 {
        return;
      }
      if bytePos == 0 && bitPos == 0 {
        ClearBlock();
      }
      AddValue(value);
    }

    method AddValue(value: nat)
      requires Valid() && Clean() && value < Pow2(bitsPerChar)
      modifies this`bytePos, this`bitPos, this`output, this`values, this`bytes, this`flushed, this`partial, this`used, outBuf
      ensures Valid() && values == old(values) + [value]
    {
      hide AllBits, Bits, Pow2, BitCount, Whole, Shl, Shr, LowBits;
      RoomForBits(bitsPerChar, bytePos, bitPos, outputBlockSize, used, blockChars);
      AllBitsAppend(values, value, bitsPerChar);
      if bitPos + bitsPerChar <= 8 {
        AddWithin(value);
      } else {
        AddAcross(value);
      }
      values := values + [value];
      used := used + 1;
      FinishChar();
    }

    method FinishChar()
      requires Buffered() && Clean() && 8 * bytePos + bitPos == BitCount(bitsPerChar, used) && 0 < used <= blockChars
      requires AllBits(bytes, 8) + Bits(partial, bitPos) == AllBits(values, bitsPerChar)
      modifies this`bytePos, this`bitPos, this`output, this`flushed, this`used
      ensures Valid()
    {
      hide AllBits, Bits, Pow2, BitCount, Whole, Shl, Shr, LowBits;
      BlockFull(bitsPerChar, bytePos, bitPos, outputBlockSize, used, blockChars);
      if bytePos == outputBlockSize {
        OutputBlock();
        used := 0;
        Eights(outputBlockSize);
        BlockNotEmpty(8, outputBlockSize, blockChars, bitsPerChar);
      }
    }

    method Put(begin: seq<Byte>)
      requires Valid()
      modifies this`bytePos, this`bitPos, this`output, this`values, this`bytes, this`flushed, this`partial, this`used, outBuf
      ensures Valid() && values == old(values) + Values(lookup, begin)
    {
      hide *;
      ValuesStart(lookup, begin);
      NothingAdded(values);
      for i := 0 to |begin|
        invariant Valid() && values == old(values) + Values(lookup, begin[..i])
      {
        PutByte(begin[i]);
        ValuesAppend(lookup, begin[..i], begin[i]);
        FrontNext(begin, i);
        Associative(old(values), Values(lookup, begin[..i]), if 0 <= lookup[begin[i]] < 256 then [lookup[begin[i]]] else []);
      }
      assert begin[..|begin|] == begin;
    }

    /** The whole bytes go out; bits that do not fill one are dropped. */
    method MessageEnd() returns (data: seq<Byte>)
      requires Valid()
      modifies this
      ensures Decodes(data, old(values), bitsPerChar)
      ensures Valid() && values == [] && output == []
    {
      hide AllBits, Bits, Pow2, BitCount, Whole, Shl, Shr, LowBits;
      data := output + outBuf[..bytePos];
      assert outBuf[..bytePos] == bytes[flushed..flushed + bytePos];
      assert data == bytes;
      assert AllBits(data, 8) <= AllBits(values, bitsPerChar);
      Restart();
    }

    method Restart()
      requires Shape()
      modifies this
      ensures Valid() && values == [] && output == []
    {
      bytePos, bitPos, output := 0, 0, [];
      values, bytes, flushed, partial, used := [], [], 0, 0, 0;
      Eights(outputBlockSize);
      BlockNotEmpty(8, outputBlockSize, blockChars, bitsPerChar);
    }
  }

  lemma ShiftUp(v: nat, k: nat, t: nat)
    requires k <= t <= 8 && v < Pow2(k)
    ensures 0 <= Shl(v, t - k) < Pow2(t)
  {
    hide *;
    ShlIs(v, t - k);
    Pow2Add(k, t - k);
    BelowProduct(v, Pow2(k), Pow2(t - k));
  }

  /** The bits of a value that spill into the next byte. */
  lemma ShiftAcross(v: nat, k: nat, s: nat)
    requires s <= k <= 8 && v < Pow2(k)
    ensures Shr(v, s) < Pow2(k - s)
    ensures 0 <= Shl(LowBits(v, s), 8 - s) < 256 == Pow2(8)
    ensures Shl(v, 8 - s) % 256 == Shl(LowBits(v, s), 8 - s)
  {
    hide *;
    ShrIs(v, s);
    LowBitsIs(v, s);
    ShlIs(LowBits(v, s), 8 - s);
    ShlIs(v, 8 - s);
    Pow2Add(k - s, s);
    Pow2Add(8 - s, s);
    ByteIs8Bits();
    TopBelow(v, Pow2(k - s), Pow2(s));
    MulEqual(v * 1, Pow2(8 - s), v, Pow2(8 - s));
    RestAligned(v, 1, Pow2(s), Pow2(8 - s), Pow2(8 - s));
    BelowProduct(LowBits(v, s), Pow2(s), Pow2(8 - s));
    MulComm(Pow2(s), Pow2(8 - s));
  }

  /** Values still to come in the block leave room for all their bits. */
  lemma RoomForBits(k: nat, bytePos: nat, bitPos: nat, block: nat, used: nat, blockChars: nat)
    requires 0 < k && 8 * block == BitCount(k, blockChars) && used < blockChars && 8 * bytePos + bitPos == BitCount(k, used)
    ensures bytePos < block && (bitPos + k > 8 ==> bytePos + 1 < block)
    ensures 8 * bytePos + bitPos + k == BitCount(k, used + 1)
  {
    Multiply(used + 1, blockChars, k);
  }

  lemma BlockFull(k: nat, bytePos: nat, bitPos: nat, block: nat, used: nat, blockChars: nat)
    requires 0 < k && bitPos < 8 && 8 * block == BitCount(k, blockChars) && 8 * bytePos + bitPos == BitCount(k, used) && used <= blockChars && bytePos <= block
    ensures bytePos == block ==> bitPos == 0
    ensures bytePos < block ==> used < blockChars
  {
    Multiply(used, blockChars, k);
  }

  // ---- Both together ----

  method EncodeAll(pieces: seq<seq<Byte>>, alphabet: seq<Byte>, k: nat, padding: int) returns (text: seq<Byte>, ghost block: nat)
    requires 1 <= k <= 7 && |alphabet| >= Pow2(k) && (padding == -1 || 0 <= padding < 256)
    ensures EncodedText(text, Joined(pieces), alphabet, k, padding, block)
  {
    hide EncodedText;
    var encoder := new BaseNEncoder(alphabet, k, padding);
    for i := 0 to |pieces|
      invariant fresh(encoder) && fresh(encoder.outBuf) && encoder.Valid() && encoder.consumed == Joined(pieces[..i])
    {
      assert pieces[..i + 1][..i] == pieces[..i];
      encoder.Put(pieces[i]);
    }
    assert pieces[..|pieces|] == pieces;
    text := encoder.MessageEnd();
    block := encoder.outputBlockSize;
  }

  method DecodeAll(pieces: seq<seq<Byte>>, lookup: Lookup, k: nat) returns (data: seq<Byte>)
    requires 1 <= k <= 7 && forall c {:trigger lookup[c]} :: 0 <= c < 256 ==> lookup[c] < Pow2(k)
    ensures Decodes(data, Values(lookup, Joined(pieces)), k)
  {
    hide Decodes, Values;
    var decoder := new BaseNDecoder(lookup, k);
    NoValues(lookup);
    for i := 0 to |pieces|
      invariant fresh(decoder) && fresh(decoder.outBuf) && decoder.Valid() && decoder.values == Values(lookup, Joined(pieces[..i]))
    {
      assert pieces[..i + 1][..i] == pieces[..i];
      ValuesJoin(lookup, Joined(pieces[..i]), pieces[i]);
      decoder.Put(pieces[i]);
    }
    assert pieces[..|pieces|] == pieces;
    data := decoder.MessageEnd();
  }

  // ---- From the bytes to the text and back ----

  ghost predicate InAlphabet(alphabet: seq<Byte>, c: Byte, caseInsensitive: bool) {
    exists i :: 0 <= i < |alphabet| && SameCharacter(alphabet[i], c, caseInsensitive)
  }

  /** What is left of a text without the characters that are not in the alphabet. */
  ghost function AlphabetOnly(text: seq<Byte>, alphabet: seq<Byte>, caseInsensitive: bool): seq<Byte> {
    if text == [] then []
    else
      var c := text[|text| - 1];
      AlphabetOnly(text[..|text| - 1], alphabet, caseInsensitive) + (if InAlphabet(alphabet, c, caseInsensitive) then [c] else [])
  }

  /** A decoding table knows exactly the characters of the alphabet. */
  ghost predicate Knows(lookup: Lookup, alphabet: seq<Byte>, caseInsensitive: bool) {
    forall c: Byte {:trigger lookup[c]} :: 0 <= lookup[c] < 256 <==> InAlphabet(alphabet, c, caseInsensitive)
  }

  lemma {:induction false} OnlyAlphabetCounts(lookup: Lookup, text: seq<Byte>, alphabet: seq<Byte>, caseInsensitive: bool)
    requires Knows(lookup, alphabet, caseInsensitive)
    ensures Values(lookup, AlphabetOnly(text, alphabet, caseInsensitive)) == Values(lookup, text)
  {
    hide InAlphabet;
    if text != [] {
      var front, c := text[..|text| - 1], text[|text| - 1];
      OnlyAlphabetCounts(lookup, front, alphabet, caseInsensitive);
      ValuesAppend(lookup, AlphabetOnly(front, alphabet, caseInsensitive), c);
      NothingAdded(AlphabetOnly(front, alphabet, caseInsensitive));
      NothingAdded(Values(lookup, front));
    }
  }

  /** The table that DecodingLookup builds for the whole alphabet. */
  lemma TableKnows(lookup: Lookup, alphabet: seq<Byte>, caseInsensitive: bool)
    requires |alphabet| <= 256
    requires forall c: Byte, i {:trigger SameCharacter(alphabet[i], c, caseInsensitive)} ::
               0 <= i < |alphabet| && SameCharacter(alphabet[i], c, caseInsensitive) ==> lookup[c] == i
    requires forall c: Byte {:trigger lookup[c]} ::
               lookup[c] == -1 || (0 <= lookup[c] < |alphabet| && SameCharacter(alphabet[lookup[c]], c, caseInsensitive))
    ensures Knows(lookup, alphabet, caseInsensitive)
  {
    hide SameCharacter;
  }

  /** Encoder to decoder: the message comes back however it was cut, and whatever the channel between them does to
      the text, as long as the characters of the alphabet arrive in order. */
  method EncodeThenDecode(pieces: seq<seq<Byte>>, alphabet: seq<Byte>, k: nat, padding: int, caseInsensitive: bool,
                          channel: seq<Byte> -> seq<seq<Byte>>) returns (data: seq<Byte>)
    requires 1 <= k <= 7 && |alphabet| == Pow2(k) <= 256 && DistinctCharacters(alphabet, |alphabet|, caseInsensitive)
    requires padding == -1 || (0 <= padding < 256 && !InAlphabet(alphabet, padding, caseInsensitive))
    requires forall text {:trigger channel(text)} ::
               AlphabetOnly(Joined(channel(text)), alphabet, caseInsensitive) == AlphabetOnly(text, alphabet, caseInsensitive)
    ensures data == Joined(pieces)
  {
    hide Pow2, Values, Decodes, EncodedText, Inverts, AlphabetOnly, DistinctCharacters, SameCharacter, InAlphabet;
    var text;
    ghost var block;
    text, block := EncodeAll(pieces, alphabet, k, padding);
    var received := channel(text);
    var lookup := DecodingLookup(alphabet, |alphabet|, caseInsensitive);
    TableKnows(lookup, alphabet, caseInsensitive);
    LookupInverts(alphabet, lookup, caseInsensitive);
    OnlyAlphabetCounts(lookup, text, alphabet, caseInsensitive);
    OnlyAlphabetCounts(lookup, Joined(received), alphabet, caseInsensitive);
    data := DecodeAll(received, lookup, k);
    RoundTrip(Joined(pieces), text, Joined(received), data, alphabet, lookup, k, padding, block);
  }

  lemma NoValues(lookup: Lookup)
    ensures Values(lookup, []) == []
  {
  }
}
