/** Bytes, and the small facts about byte strings the stream modules share. */
module Bytes {
  import opened Integers

  type Byte = b: int | 0 <= b < 256

  function Min(x: int, y: int): int {
    if x < y then x else y
  }

  /** The concatenation of the pieces a message was cut into. */
  function Joined<T>(pieces: seq<seq<T>>): seq<T> {
    if pieces == [] then [] else Joined(pieces[..|pieces| - 1]) + pieces[|pieces| - 1]
  }

  lemma {:induction false} JoinedAppend<T>(xs: seq<seq<T>>, ys: seq<seq<T>>)
    ensures Joined(xs + ys) == Joined(xs) + Joined(ys)
  {
    if ys == [] {
      NothingAdded(xs);
      NothingAdded(Joined(xs));
    } else {
      var front, last := ys[..|ys| - 1], ys[|ys| - 1];
      JoinedAppend(xs, front);
      LastOfBoth(xs, ys);
      Associative(Joined(xs), Joined(front), last);
    }
  }

  lemma LastOfBoth<T>(xs: seq<T>, ys: seq<T>)
    requires ys != []
    ensures var both := xs + ys;
            both != [] && both[..|both| - 1] == xs + ys[..|ys| - 1] && both[|both| - 1] == ys[|ys| - 1]
  {
  }

  /** The string s with x written over it at the given place. */
  function Overwritten(s: seq<Byte>, at: nat, x: seq<Byte>): (t: seq<Byte>)
    requires at + |x| <= |s|
    ensures |t| == |s|
  {
    s[..at] + x + s[at + |x|..]
  }

  lemma OverwrittenSlice(s: seq<Byte>, at: nat, x: seq<Byte>, i: nat, j: nat)
    requires at + |x| <= |s| && i <= j <= |s|
    ensures j <= at || at + |x| <= i ==> Overwritten(s, at, x)[i..j] == s[i..j]
    ensures Overwritten(s, at, x)[at..at + |x|] == x
  {
  }

  lemma OverwrittenFrom(s: seq<Byte>, head: nat, tail: nat, x: seq<Byte>)
    requires head <= tail && tail + |x| <= |s|
    ensures Overwritten(s, tail, x)[head..tail + |x|] == s[head..tail] + x
  {
    hide Overwritten;
    OverwrittenSlice(s, tail, x, head, tail);
    SliceJoin(Overwritten(s, tail, x), head, tail, tail + |x|);
  }

  /** Writing one byte after another. */
  lemma OverwrittenNext(s: seq<Byte>, at: nat, x: seq<Byte>, i: nat)
    requires at + |x| <= |s| && i < |x|
    ensures Overwritten(s, at, x[..i])[at + i] == s[at + i]
    ensures Overwritten(s, at, x[..i + 1]) == Overwritten(s, at, x[..i])[at + i := x[i]]
  {
  }

  lemma OverwrittenEnds(s: seq<Byte>, at: nat, x: seq<Byte>)
    requires at + |x| <= |s|
    ensures Overwritten(s, at, x[..0]) == s && Overwritten(s, at, x[..|x|]) == Overwritten(s, at, x)
  {
    assert x[..|x|] == x;
  }

  lemma OverwrittenTwice(s: seq<Byte>, at: nat, x: seq<Byte>, y: seq<Byte>)
    requires at + |x| + |y| <= |s|
    ensures Overwritten(Overwritten(s, at, x), at + |x|, y) == Overwritten(s, at, x + y)
  {
  }

  method Memcpy(buffer: array<Byte>, at: nat, x: seq<Byte>)
    requires at + |x| <= buffer.Length
    modifies buffer
    ensures buffer[..] == Overwritten(old(buffer[..]), at, x)
  {
    forall i | 0 <= i < |x| {
      buffer[at + i] := x[i];
    }
  }

  lemma JoinedFirst<T>(xs: seq<seq<T>>)
    requires xs != []
    ensures Joined(xs) == xs[0] + Joined(xs[1..])
  {
    assert xs == [xs[0]] + xs[1..];
    JoinedAppend([xs[0]], xs[1..]);
    assert [xs[0]][..0] == [];
  }

  lemma {:induction false} JoinedEmpties<T>(xs: seq<seq<T>>)
    requires forall i :: 0 <= i < |xs| ==> xs[i] == []
    ensures Joined(xs) == []
  {
    if xs != [] { JoinedEmpties(xs[..|xs| - 1]); }
  }

  /** After empty pieces the join begins with the first other piece. */
  lemma JoinedAt<T>(xs: seq<seq<T>>, k: nat)
    requires k < |xs| && forall i :: 0 <= i < k ==> xs[i] == []
    ensures Joined(xs) == xs[k] + Joined(xs[k + 1..])
  {
    assert xs == xs[..k] + xs[k..];
    JoinedAppend(xs[..k], xs[k..]);
    JoinedEmpties(xs[..k]);
    JoinedFirst(xs[k..]);
  }

  lemma JoinedLastChanged<T>(xs: seq<seq<T>>, x: seq<T>)
    requires xs != []
    ensures Joined(xs[|xs| - 1 := xs[|xs| - 1] + x]) == Joined(xs) + x
  {
    var n := |xs| - 1;
    assert xs[n := xs[n] + x][..n] == xs[..n];
  }

  lemma JoinedSingle<T>(x: seq<T>)
    ensures Joined([x]) == x
  {
    assert [x][..0] == [];
  }

  lemma SliceJoin<T>(s: seq<T>, i: nat, j: nat, k: nat)
    requires i <= j <= k <= |s|
    ensures s[i..k] == s[i..j] + s[j..k]
  {
  }

  lemma Associative<T>(a: seq<T>, b: seq<T>, c: seq<T>)
    ensures a + b + c == a + (b + c)
  {
  }

  lemma NothingAdded<T>(a: seq<T>)
    ensures a + [] == a && [] + a == a
  {
  }

  lemma JoinedNext<T>(pieces: seq<seq<T>>, i: nat)
    requires i < |pieces|
    ensures Joined(pieces[..i + 1]) == Joined(pieces[..i]) + pieces[i]
  {
    assert pieces[..i + 1][..i] == pieces[..i];
  }

  lemma JoinedNothing<T>(pieces: seq<seq<T>>)
    ensures Joined(pieces[..0]) == []
  {
  }

  lemma LastApart<T>(a: seq<T>)
    requires a != []
    ensures a == a[..|a| - 1] + [a[|a| - 1]]
  {
  }

  /** The first i + 1 elements are the first i and the next one. */
  lemma FrontNext<T>(a: seq<T>, i: nat)
    requires i < |a|
    ensures a[..i + 1] == a[..i] + [a[i]]
  {
  }

  // ---- Bits ----

  /** Exclusive or of the n low bits. */
  function XorBits(a: nat, b: nat, n: nat): (r: nat)
    ensures r < Pow2(n)
  {
    if n == 0 then 0 else (a % 2 + b % 2) % 2 + 2 * XorBits(a / 2, b / 2, n - 1)
  }

  lemma {:induction false} XorTwice(a: nat, b: nat, n: nat)
    requires a < Pow2(n)
    ensures XorBits(XorBits(a, b, n), b, n) == a
  {
    if n == 0 {
      XorNone(a, b);
      XorNone(XorBits(a, b, 0), b);
    } else {
      hide *;
      var r := XorBits(a, b, n);
      XorStep(a, b, n);
      XorStep(r, b, n);
      HalfBelow(a, n);
      XorTwice(a / 2, b / 2, n - 1);
      BitTwice(a % 2, b % 2);
      SameHalves(XorBits(r, b, n), a);
    }
  }

  lemma HalfBelow(a: nat, n: nat)
    requires n > 0 && a < Pow2(n)
    ensures 0 <= a / 2 < Pow2(n - 1)
  {
  }

  lemma BitTwice(x: nat, y: nat)
    requires x < 2 && y < 2
    ensures ((x + y) % 2 + y) % 2 == x
  {
  }

  lemma SameHalves(x: nat, y: nat)
    requires x % 2 == y % 2 && x / 2 == y / 2
    ensures x == y
  {
  }

  lemma XorNone(a: nat, b: nat)
    ensures XorBits(a, b, 0) == 0
  {
  }

  lemma XorStep(a: nat, b: nat, n: nat)
    requires n > 0
    ensures XorBits(a, b, n) % 2 == (a % 2 + b % 2) % 2
    ensures XorBits(a, b, n) / 2 == XorBits(a / 2, b / 2, n - 1)
  {
    LowBit((a % 2 + b % 2) % 2, XorBits(a / 2, b / 2, n - 1));
  }

  lemma {:induction false} XorCommutes(a: nat, b: nat, n: nat)
    ensures XorBits(a, b, n) == XorBits(b, a, n)
  {
    if n > 0 { XorCommutes(a / 2, b / 2, n - 1); }
  }

  /** Bit i of an exclusive or is set when it is set in one of the two. */
  lemma {:induction false} XorBitsAt(a: nat, b: nat, n: nat, i: nat)
    requires i < n
    ensures Shr(XorBits(a, b, n), i) % 2 == (Shr(a, i) + Shr(b, i)) % 2
  {
    hide *;
    var r := XorBits(a, b, n);
    XorStep(a, b, n);
    if i == 0 {
      NoShift(r);
      NoShift(a);
      NoShift(b);
      SumParity(a, b);
    } else {
      ShrNext(r, i);
      ShrNext(a, i);
      ShrNext(b, i);
      XorBitsAt(a / 2, b / 2, n - 1, i - 1);
    }
  }

  lemma SumParity(a: nat, b: nat)
    ensures (a % 2 + b % 2) % 2 == (a + b) % 2
  {
  }

  lemma NoShift(x: nat)
    ensures Shr(x, 0) == x
  {
  }

  lemma XorAt(a: Byte, b: Byte, i: nat)
    requires i < 8
    ensures Shr(Xor(a, b), i) % 2 == (Shr(a, i) + Shr(b, i)) % 2
  {
    XorBitsAt(a, b, 8, i);
  }

  lemma OrAt(a: Byte, b: Byte, i: nat)
    ensures Shr(Or(a, b), i) % 2 == if Shr(a, i) % 2 == 1 || Shr(b, i) % 2 == 1 then 1 else 0
  {
    hide Shr, BitOr;
    BitOrAt(a, b, i);
  }

  /** Or of a byte with the low eight bits of a number. */
  function Or(a: Byte, b: nat): Byte {
    assert Pow2(8) == 256;
    BitOrBelow(a, b % 256, 8);
    BitOr(a, b % 256)
  }

  /** Addition of unsigned bytes. */
  function Add8(a: int, b: int): Byte {
    (a + b) % 256
  }

  function Xor(a: Byte, b: Byte): Byte {
    assert Pow2(8) == 256;
    XorBits(a, b, 8)
  }

  lemma XorInverse(a: Byte, b: Byte)
    ensures Xor(Xor(a, b), b) == a && Xor(Xor(b, a), b) == a && Xor(b, Xor(b, a)) == a
  {
    hide XorBits;
    assert Pow2(8) == 256;
    XorTwice(a, b, 8);
    XorCommutes(a, b, 8);
    XorCommutes(Xor(b, a), b, 8);
  }
}
