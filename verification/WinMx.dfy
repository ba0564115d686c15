/** The WinMX codec: five rounds of chained exclusive or over a buffer, in place. */
module WinMx {
  import opened Bytes

  const ROUNDS := 5

  // ---- What a round does, index by index ----

  /** t comes from s by an encoding round; keyed with the length in the round with counter 4, else with the last byte. */
  ghost predicate EncodesTo(s: seq<Byte>, t: seq<Byte>, counter: int) {
    s != [] && |t| == |s| && t[0] == Xor(s[0], if counter == 4 then |s| % 256 else s[|s| - 1]) &&
    forall i :: 1 <= i < |s| ==> t[i] == Xor(s[i], t[i - 1])
  }

  /** The key of a decoding round is the last byte of the new string. */
  ghost predicate DecodesTo(s: seq<Byte>, t: seq<Byte>, counter: int) {
    s != [] && |t| == |s| && (forall i :: 1 <= i < |s| ==> t[i] == Xor(s[i], s[i - 1])) &&
    t[0] == Xor(s[0], if counter == 4 then |s| % 256 else if |s| == 1 then s[0] else t[|s| - 1])
  }

  // ---- The rounds on byte strings ----

  /** What the first byte of a round is combined with: the last byte, or in the outermost round the length. */
  function Key(s: seq<Byte>, counter: nat): Byte
    requires s != []
  {
    if counter != 4 then s[|s| - 1] else |s| % 256
  }

  /** Each byte combined with the result before it. */
  function Chained(s: seq<Byte>, first: Byte): (r: seq<Byte>)
    requires s != []
    ensures |r| == |s|
  {
    if |s| == 1 then [first]
    else
      var r := Chained(s[..|s| - 1], first);
      r + [Xor(s[|s| - 1], r[|r| - 1])]
  }

  function EncodeRound(s: seq<Byte>, counter: nat): (r: seq<Byte>)
    requires s != []
    ensures |r| == |s|
  {
    Chained(s, Xor(s[0], Key(s, counter)))
  }

  function Unchained(s: seq<Byte>): (r: seq<Byte>)
    requires s != []
    ensures |r| == |s|
  {
    seq(|s|, i requires 0 <= i < |s| => if i == 0 then s[0] else Xor(s[i], s[i - 1]))
  }

  function DecodeRound(s: seq<Byte>, counter: nat): (r: seq<Byte>)
    requires s != []
    ensures |r| == |s|
  {
    var u := Unchained(s);
    u[0 := Xor(u[0], Key(u, counter))]
  }

  lemma {:induction false} ChainedAt(s: seq<Byte>, first: Byte, i: nat)
    requires i < |s|
    ensures Chained(s, first)[i] == if i == 0 then first else Xor(s[i], Chained(s, first)[i - 1])
  {
    if |s| > 1 && i < |s| - 1 { ChainedAt(s[..|s| - 1], first, i); }
  }

  lemma RoundEncodes(s: seq<Byte>, counter: nat)
    requires s != []
    ensures EncodesTo(s, EncodeRound(s, counter), counter)
  {
    hide Xor, Chained;
    forall i | 0 <= i < |s| ensures EncodeRound(s, counter)[i] == Chained(s, Xor(s[0], Key(s, counter)))[i] {
      ChainedAt(s, Xor(s[0], Key(s, counter)), i);
    }
    ChainedAt(s, Xor(s[0], Key(s, counter)), 0);
    forall i | 1 <= i < |s| ensures EncodeRound(s, counter)[i] == Xor(s[i], EncodeRound(s, counter)[i - 1]) {
      ChainedAt(s, Xor(s[0], Key(s, counter)), i);
    }
  }

  lemma RoundDecodes(s: seq<Byte>, counter: nat)
    requires s != []
    ensures DecodesTo(s, DecodeRound(s, counter), counter)
  {
    hide Xor, Unchained;
    UnchainedAt(s);
  }

  lemma UnchainedAt(s: seq<Byte>)
    requires s != []
    ensures Unchained(s)[0] == s[0] && forall i :: 1 <= i < |s| ==> Unchained(s)[i] == Xor(s[i], s[i - 1])
  {
    hide Xor;
  }

  /** A round and its counterpart, in either order, for at least two bytes. */
  lemma RoundsInvert(s: seq<Byte>, counter: nat)
    requires |s| >= 2
    ensures DecodeRound(EncodeRound(s, counter), counter) == s
    ensures EncodeRound(DecodeRound(s, counter), counter) == s
  {
    hide Xor;
    DecodeAfterEncode(s, counter);
    EncodeAfterDecode(s, counter);
  }

  lemma DecodeAfterEncode(s: seq<Byte>, counter: nat)
    requires |s| >= 2
    ensures DecodeRound(EncodeRound(s, counter), counter) == s
  {
    hide Xor, Chained;
    var key := Key(s, counter);
    var e := EncodeRound(s, counter);
    var u := Unchained(e);
    forall i | 1 <= i < |s| ensures u[i] == s[i] {
      ChainedAt(s, Xor(s[0], key), i);
      XorInverse(s[i], e[i - 1]);
    }
    ChainedAt(s, Xor(s[0], key), 0);
    assert u[|s| - 1] == s[|s| - 1];
    XorInverse(s[0], key);
  }

  lemma {:induction false} ChainedUnchained(s: seq<Byte>, d: seq<Byte>)
    requires s != [] && |d| == |s| && forall i :: 1 <= i < |s| ==> d[i] == Xor(s[i], s[i - 1])
    ensures Chained(d, s[0]) == s
  {
    hide Xor;
    if |s| > 1 {
      var n := |s| - 1;
      ChainedUnchained(s[..n], d[..n]);
      XorInverse(s[n], s[n - 1]);
      assert s == s[..n] + [s[n]];
    }
  }

  lemma EncodeAfterDecode(s: seq<Byte>, counter: nat)
    requires |s| >= 2
    ensures EncodeRound(DecodeRound(s, counter), counter) == s
  {
    hide Xor, Chained;
    var d := DecodeRound(s, counter);
    XorInverse(s[0], Key(d, counter));
    ChainedUnchained(s, d);
  }

  // ---- All rounds ----

  /** The rounds with counters from - 1 down to to. */
  function EncodeRounds(s: seq<Byte>, from: nat, to: nat): (r: seq<Byte>)
    requires s != [] && to <= from
    ensures |r| == |s|
    decreases from
  {
    if from == to then s else EncodeRounds(EncodeRound(s, from - 1), from - 1, to)
  }

  /** The rounds with counters from 0 up to n - 1. */
  function DecodeRounds(s: seq<Byte>, n: nat): (r: seq<Byte>)
    requires s != []
    ensures |r| == |s|
  {
    if n == 0 then s else DecodeRound(DecodeRounds(s, n - 1), n - 1)
  }

  function Encoded(s: seq<Byte>): seq<Byte>
    requires s != []
  {
    EncodeRounds(s, ROUNDS, 0)
  }

  function Decoded(s: seq<Byte>): seq<Byte>
    requires s != []
  {
    DecodeRounds(s, ROUNDS)
  }

  lemma {:induction false} RoundsUndone(s: seq<Byte>, n: nat)
    requires |s| >= 2
    ensures DecodeRounds(EncodeRounds(s, n, 0), n) == s && EncodeRounds(DecodeRounds(s, n), n, 0) == s
    decreases n
  {
    hide EncodeRound, DecodeRound;
    if n > 0 {
      RoundsUndone(EncodeRound(s, n - 1), n - 1);
      RoundsInvert(s, n - 1);
      RoundsUndone(s, n - 1);
      RoundsInvert(DecodeRounds(s, n - 1), n - 1);
    }
  }

  /** Five encoding rounds lead from one string to the next, from counter 4 down to 0. */
  lemma EncodedRounds(s: seq<Byte>)
    requires s != []
    ensures exists r: seq<seq<Byte>> {:trigger |r|} :: |r| == 6 && r[0] == s && r[5] == Encoded(s) &&
              EncodesTo(r[0], r[1], 4) && EncodesTo(r[1], r[2], 3) && EncodesTo(r[2], r[3], 2) &&
              EncodesTo(r[3], r[4], 1) && EncodesTo(r[4], r[5], 0)
  {
    hide *;
    var s1 := EncodeRound(s, 4);
    var s2 := EncodeRound(s1, 3);
    var s3 := EncodeRound(s2, 2);
    var s4 := EncodeRound(s3, 1);
    var s5 := EncodeRound(s4, 0);
    FiveRounds(s);
    RoundEncodes(s, 4);
    RoundEncodes(s1, 3);
    RoundEncodes(s2, 2);
    RoundEncodes(s3, 1);
    RoundEncodes(s4, 0);
    assert |[s, s1, s2, s3, s4, s5]| == 6;
  }

  lemma FiveRounds(s: seq<Byte>)
    requires s != []
    ensures Encoded(s) == EncodeRound(EncodeRound(EncodeRound(EncodeRound(EncodeRound(s, 4), 3), 2), 1), 0)
  {
    hide EncodeRound;
    var s3 := EncodeRound(EncodeRound(EncodeRound(s, 4), 3), 2);
    assert Encoded(s) == EncodeRounds(EncodeRound(s, 4), 4, 0) == EncodeRounds(EncodeRound(EncodeRound(s, 4), 3), 3, 0) == EncodeRounds(s3, 2, 0);
    assert EncodeRounds(s3, 2, 0) == EncodeRounds(EncodeRound(s3, 1), 1, 0) == EncodeRounds(EncodeRound(EncodeRound(s3, 1), 0), 0, 0);
  }

  /** Five decoding rounds, from counter 0 up to 4. */
  lemma DecodedRounds(s: seq<Byte>)
    requires s != []
    ensures exists r: seq<seq<Byte>> {:trigger |r|} :: |r| == 6 && r[0] == s && r[5] == Decoded(s) &&
              DecodesTo(r[0], r[1], 0) && DecodesTo(r[1], r[2], 1) && DecodesTo(r[2], r[3], 2) &&
              DecodesTo(r[3], r[4], 3) && DecodesTo(r[4], r[5], 4)
  {
    hide DecodeRound, DecodesTo;
    var s1 := DecodeRound(s, 0);
    var s2 := DecodeRound(s1, 1);
    var s3 := DecodeRound(s2, 2);
    var s4 := DecodeRound(s3, 3);
    var s5 := DecodeRound(s4, 4);
    RoundDecodes(s, 0);
    RoundDecodes(s1, 1);
    RoundDecodes(s2, 2);
    RoundDecodes(s3, 3);
    RoundDecodes(s4, 4);
    assert DecodeRounds(s, 0) == s;
    assert DecodeRounds(s, 1) == s1;
    assert DecodeRounds(s, 2) == s2;
    assert DecodeRounds(s, 3) == s3;
    assert DecodeRounds(s, 4) == s4;
    assert DecodeRounds(s, 5) == s5;
    assert |[s, s1, s2, s3, s4, s5]| == 6;
  }

  /** One byte is lost: the fourth round combines it with itself. */
  lemma OneByte(b: Byte)
    ensures Encoded([b]) == [0] && Decoded([b]) == [1]
  {
    hide EncodeRound, DecodeRound;
    var first := EncodeRound([b], 4);
    OneByteRound([b], 4);
    OneByteRound(first, 3);
    OneByteRound([0], 2);
    OneByteRound([0], 1);
    OneByteRound([0], 0);
    OneByteRound([b], 0);
    assert EncodeRounds([b], 5, 0) == EncodeRounds(first, 4, 0) == EncodeRounds([0], 3, 0);
    assert EncodeRounds([0], 3, 0) == EncodeRounds([0], 2, 0) == EncodeRounds([0], 1, 0) == EncodeRounds([0], 0, 0);
    assert DecodeRounds([b], 1) == [0];
    assert DecodeRounds([b], 2) == [0];
    assert DecodeRounds([b], 3) == [0];
    OneByteRound([0], 3);
    assert DecodeRounds([b], 4) == [0];
    OneByteRound([0], 4);
  }

  lemma OneByteRound(s: seq<Byte>, counter: nat)
    requires |s| == 1
    ensures |EncodeRound(s, counter)| == 1
    ensures counter != 4 ==> EncodeRound(s, counter) == [0] && DecodeRound(s, counter) == [0]
    ensures s == [0] && counter == 4 ==> DecodeRound(s, counter) == [1]
  {
    hide Xor;
    SelfAndOne(s[0]);
  }

  lemma SelfAndOne(b: Byte)
    ensures Xor(b, b) == 0 && Xor(0, 1) == 1
  {
    XorWithItself(b, 8);
    XorZeroOne();
  }

  lemma {:induction false} XorWithItself(a: nat, n: nat)
    ensures XorBits(a, a, n) == 0
  {
    if n > 0 { XorWithItself(a / 2, n - 1); }
  }

  lemma XorZeroOne()
    ensures Xor(0, 1) == 1
  {
    XorWithItself(0, 7);
    assert XorBits(0, 1, 8) == 1 + 2 * XorBits(0, 0, 7);
  }

  /** Exactly when the codec gives a buffer back: with two bytes or more, or by chance with one. */
  lemma RoundTripExactly(s: seq<Byte>)
    requires s != []
    ensures Decoded(Encoded(s)) == s <==> |s| >= 2 || s[0] == 1
    ensures Encoded(Decoded(s)) == s <==> |s| >= 2 || s[0] == 0
  {
    hide Encoded, Decoded;
    if |s| >= 2 {
      RoundTrip(s);
    } else {
      assert s == [s[0]];
      OneByte(s[0]);
      OneByte(0);
      OneByte(1);
    }
  }

  /** The bytes 1, 2, 3 and what becomes of them. */
  lemma ThreeBytes()
    ensures Encoded([1, 2, 3]) == [2, 3, 2] && Decoded([2, 3, 2]) == [1, 2, 3]
  {
    hide *;
    TwoBitsTable();
    FiveRounds([1, 2, 3]);
    RoundOfThree(1, 2, 3, 4);
    RoundOfThree(2, 0, 3, 3);
    RoundOfThree(1, 1, 2, 2);
    RoundOfThree(3, 2, 0, 1);
    RoundOfThree(3, 1, 1, 0);
    RoundTrip([1, 2, 3]);
  }

  lemma TwoBitsTable()
    ensures TwoBits(1, 3) == TwoBits(3, 1) == 2 && TwoBits(2, 2) == TwoBits(3, 3) == TwoBits(1, 1) == 0 && TwoBits(3, 0) == 3
    ensures TwoBits(2, 3) == TwoBits(0, 1) == 1 && TwoBits(1, 2) == 3 && TwoBits(2, 0) == 2 && TwoBits(1, 0) == 1
  {
  }

  lemma RoundOfThree(a: Byte, b: Byte, c: Byte, counter: nat)
    requires a < 4 && b < 4 && c < 4
    ensures var x := TwoBits(a, if counter != 4 then c else 3);
            EncodeRound([a, b, c], counter) == [x, TwoBits(b, x), TwoBits(c, TwoBits(b, x))]
  {
    hide Xor, Chained, TwoBits;
    var s, key := [a, b, c], if counter != 4 then c else 3;
    var x := Xor(a, key);
    ChainedAt(s, x, 0);
    ChainedAt(s, x, 1);
    ChainedAt(s, x, 2);
    SmallXor(a, key);
    SmallXor(b, x);
    SmallXor(c, TwoBits(b, x));
  }

  function TwoBits(a: nat, b: nat): (r: Byte)
    ensures r < 4
  {
    (if a % 2 == b % 2 then 0 else 1) + if a / 2 % 2 == b / 2 % 2 then 0 else 2
  }

  lemma SmallXor(a: Byte, b: Byte)
    requires a < 4 && b < 4
    ensures Xor(a, b) == TwoBits(a, b)
  {
    hide *;
    XorIs(a, b);
    XorStep(a, b, 8);
    XorStep(a / 2, b / 2, 7);
    XorWithItself(0, 6);
    TwoBitsOf(a, b);
  }

  lemma XorIs(a: Byte, b: Byte)
    ensures Xor(a, b) == XorBits(a, b, 8)
  {
  }

  lemma TwoBitsOf(a: nat, b: nat)
    ensures TwoBits(a, b) == (a % 2 + b % 2) % 2 + 2 * ((a / 2 % 2 + b / 2 % 2) % 2)
  {
  }

  lemma RoundTrip(s: seq<Byte>)
    requires |s| >= 2
    ensures Decoded(Encoded(s)) == s && Encoded(Decoded(s)) == s
  {
    hide EncodeRounds, DecodeRounds;
    RoundsUndone(s, ROUNDS);
  }

  // ---- In place ----

  method WinmxEncode(what: array<Byte>)
    requires what.Length > 0
    modifies what
    ensures what[..] == Encoded(old(what[..]))
    ensures exists r: seq<seq<Byte>> {:trigger |r|} :: |r| == 6 && r[0] == old(what[..]) && r[5] == what[..] &&
              EncodesTo(r[0], r[1], 4) && EncodesTo(r[1], r[2], 3) && EncodesTo(r[2], r[3], 2) &&
              EncodesTo(r[3], r[4], 1) && EncodesTo(r[4], r[5], 0)
  {
    hide EncodeRound, Xor, EncodesTo;
    ghost var s := what[..];
    EncodedRounds(s);
    var counter := 4;
    while counter >= 0
      invariant -1 <= counter <= 4 && EncodeRounds(what[..], counter + 1, 0) == Encoded(s)
    {
      EncodeRoundInPlace(what, counter);
      counter := counter - 1;
    }
  }

  lemma ChainedOne(s: seq<Byte>, first: Byte)
    requires |s| == 1
    ensures Chained(s, first) == [first]
  {
  }

  lemma ChainedNext(s: seq<Byte>, first: Byte, x: nat)
    requires 1 <= x < |s|
    ensures var r := Chained(s[..x], first); Chained(s[..x + 1], first) == r + [Xor(s[x], r[x - 1])]
  {
    assert s[..x + 1][..x] == s[..x];
  }

  method EncodeRoundInPlace(what: array<Byte>, counter: nat)
    requires what.Length > 0
    modifies what
    ensures what[..] == EncodeRound(old(what[..]), counter)
  {
    hide Xor, Chained;
    ghost var s := what[..];
    if counter != 4 {
      what[0] := Xor(what[0], what[what.Length - 1]);
    } else {
      what[0] := Xor(what[0], what.Length % 256);
    }
    ghost var first := what[0];
    ChainedOne(s[..1], first);
    for x := 1 to what.Length
      invariant what[..x] == Chained(s[..x], first)
      invariant forall i {:trigger what[i]} :: x <= i < what.Length ==> what[i] == s[i]
    {
      ChainedNext(s, first, x);
      what[x] := Xor(what[x], what[x - 1]);
    }
    assert s[..what.Length] == s && what[..what.Length] == what[..];
  }

  method WinmxDecode(what: array<Byte>)
    requires what.Length > 0
    modifies what
    ensures what[..] == Decoded(old(what[..]))
    ensures exists r: seq<seq<Byte>> {:trigger |r|} :: |r| == 6 && r[0] == old(what[..]) && r[5] == what[..] &&
              DecodesTo(r[0], r[1], 0) && DecodesTo(r[1], r[2], 1) && DecodesTo(r[2], r[3], 2) &&
              DecodesTo(r[3], r[4], 3) && DecodesTo(r[4], r[5], 4)
  {
    hide DecodeRound, DecodesTo;
    ghost var s := what[..];
    DecodedRounds(s);
    for counter := 0 to 5
      invariant what[..] == DecodeRounds(s, counter)
    {
      DecodeRoundInPlace(what, counter);
    }
  }

  method DecodeRoundInPlace(what: array<Byte>, counter: nat)
    requires what.Length > 0
    modifies what
    ensures what[..] == DecodeRound(old(what[..]), counter)
  {
    hide Xor, Unchained;
    ghost var s := what[..];
    UnchainInPlace(what);
    if counter != 4 {
      what[0] := Xor(what[0], what[what.Length - 1]);
    } else {
      what[0] := Xor(what[0], what.Length % 256);
    }
  }

  method UnchainInPlace(what: array<Byte>)
    requires what.Length > 0
    modifies what
    ensures what[..] == Unchained(old(what[..]))
  {
    hide Xor;
    ghost var s := what[..];
    var x := what.Length - 1;
    while x > 0
      invariant 0 <= x < what.Length
      invariant forall i {:trigger what[i]} :: 0 <= i <= x ==> what[i] == s[i]
      invariant forall i {:trigger what[i]} :: x < i < what.Length ==> what[i] == Xor(s[i], s[i - 1])
    {
      what[x] := Xor(what[x], what[x - 1]);
      x := x - 1;
    }
  }
}
