/** Cipher feedback mode: a register that each call continues where the last one stopped. */
module Cfb {
  import opened Integers
  import opened Bytes

  type BlockCipher = seq<Byte> -> seq<Byte>

  ghost predicate KeepsLength(c: BlockCipher, blockSize: nat) {
    forall x: seq<Byte> :: |x| == blockSize ==> |c(x)| == blockSize
  }

  function XorBytes(a: seq<Byte>, b: seq<Byte>): (r: seq<Byte>)
    requires |a| == |b|
    ensures |r| == |a|
  {
    seq(|a|, i requires 0 <= i < |a| => Xor(a[i], b[i]))
  }

  // ---- The mode of NIST SP 800-38A, section 6.3, segment by segment ----

  /** The input block, the message and the direction determine the output. The feedback is always ciphertext. */
  ghost function Nist(c: BlockCipher, f: nat, input: seq<Byte>, forward: bool, message: seq<Byte>): seq<Byte>
    requires 0 < f <= |input| && KeepsLength(c, |input|)
    decreases |message|
  {
    if message == [] then []
    else
      var n := Min(f, |message|);
      var out := XorBytes(c(input)[..n], message[..n]);
      var fed := if forward then out else message[..n];
      if n < f then out else out + Nist(c, f, input[f..] + fed, forward, message[f..])
  }

  /** Every byte of the output in one piece: the message byte, exclusive-ored with its byte of the encryption of the
      last bytes of the initial block and the ciphertext of the segments before. */
  lemma {:induction false} NistByte(c: BlockCipher, f: nat, input: seq<Byte>, forward: bool, message: seq<Byte>, i: nat)
    requires 0 < f <= |input| && KeepsLength(c, |input|) && i < |message|
    ensures var out := Nist(c, f, input, forward, message);
            var cipher := if forward then out else message;
            |out| == |message| && 0 <= i / f * f <= i && 0 <= i % f < f &&
            var fed := input + cipher[..i / f * f];
            out[i] == Xor(c(fed[|fed| - |input|..])[i % f], message[i])
    decreases |message|
  {
    hide *;
    QuotientSplit(i, f);
    Monotone(0, i / f, f);
    NistFirst(c, f, input, forward, message);
    NistLength(c, f, input, forward, message);
    var out := Nist(c, f, input, forward, message);
    var cipher := if forward then out else message;
    if i < f {
      DivModUnique(i, f, 0, i);
      assert i / f * f == 0;
      WholeInput(input, cipher);
    } else {
      var next, k := input[f..] + cipher[..f], i / f * f;
      var out' := Nist(c, f, next, forward, message[f..]);
      NistByte(c, f, next, forward, message[f..], i - f);
      AddMul(i / f, -1, f);
      DivModUnique(i - f, f, i / f - 1, i % f);
      if i / f < 1 { Monotone(i / f, 0, f); }
      Monotone(1, i / f, f);
      LastBytes(input, cipher, f, k);
      var cipher' := if forward then out' else message[f..];
      assert cipher' == cipher[f..] && (i - f) / f * f == k - f;
      assert out'[i - f] == out[i];
    }
  }

  lemma WholeInput(input: seq<Byte>, cipher: seq<Byte>)
    ensures var fed := input + cipher[..0]; fed[|fed| - |input|..] == input
  {
  }

  lemma NistFirst(c: BlockCipher, f: nat, input: seq<Byte>, forward: bool, message: seq<Byte>)
    requires 0 < f <= |input| && KeepsLength(c, |input|)
    ensures var out := Nist(c, f, input, forward, message);
            var cipher := if forward then out else message;
            |c(input)| == |input| &&
            (forall i :: 0 <= i < f && i < |message| ==> i < |out| && out[i] == Xor(c(input)[i], message[i])) &&
            (f <= |message| ==> out[f..] == Nist(c, f, input[f..] + cipher[..f], forward, message[f..]))
  {
    hide Xor;
  }

  lemma {:induction false} NistLength(c: BlockCipher, f: nat, input: seq<Byte>, forward: bool, message: seq<Byte>)
    requires 0 < f <= |input| && KeepsLength(c, |input|)
    ensures |Nist(c, f, input, forward, message)| == |message|
    decreases |message|
  {
    hide Xor;
    var n := Min(f, |message|);
    if n == f {
      var out := XorBytes(c(input)[..n], message[..n]);
      NistLength(c, f, input[f..] + (if forward then out else message[..n]), forward, message[f..]);
    }
  }

  /** The end of everything fed so far, with the first segment moved into the block. */
  lemma LastBytes(input: seq<Byte>, cipher: seq<Byte>, f: nat, k: nat)
    requires f <= |input| && f <= k <= |cipher|
    ensures var fed, fed' := input + cipher[..k], input[f..] + cipher[..f] + cipher[f..][..k - f];
            |fed'| >= |input| && fed[|fed| - |input|..] == fed'[|fed'| - |input|..]
  {
    var fed, fed' := input + cipher[..k], input[f..] + cipher[..f] + cipher[f..][..k - f];
    assert cipher[..k] == cipher[..f] + cipher[f..][..k - f];
    assert fed' == fed[f..];
    assert fed[f..][k - f..] == fed[k..];
  }

  // ---- The register, one byte at a time ----

  /** The register, and how many of its last bytes have not met a message byte yet. */
  datatype State = State(register: seq<Byte>, leftOver: nat)

  ghost predicate Fits(c: BlockCipher, f: nat, s: State) {
    0 < f <= |s.register| && KeepsLength(c, |s.register|) && s.leftOver <= f
  }

  ghost function Transformed(c: BlockCipher, f: nat, register: seq<Byte>): (r: seq<Byte>)
    requires 0 < f <= |register| && KeepsLength(c, |register|)
    ensures |r| == |register|
  {
    register[f..] + c(register)[..f]
  }

  /** The register is transformed only when the next byte arrives. */
  ghost function Ready(c: BlockCipher, f: nat, s: State): (t: State)
    requires Fits(c, f, s)
    ensures Fits(c, f, t) && 0 < t.leftOver && |t.register| == |s.register|
  {
    if s.leftOver == 0 then State(Transformed(c, f, s.register), f) else s
  }

  ghost function OutputByte(c: BlockCipher, f: nat, s: State, b: Byte): Byte
    requires Fits(c, f, s)
  {
    var t := Ready(c, f, s);
    Xor(t.register[|t.register| - t.leftOver], b)
  }

  ghost function NextState(c: BlockCipher, f: nat, s: State, forward: bool, b: Byte): (t: State)
    requires Fits(c, f, s)
    ensures Fits(c, f, t) && |t.register| == |s.register|
  {
    var t := Ready(c, f, s);
    State(t.register[|t.register| - t.leftOver := if forward then OutputByte(c, f, s, b) else b], t.leftOver - 1)
  }

  ghost function After(c: BlockCipher, f: nat, s: State, forward: bool, data: seq<Byte>): (t: State)
    requires Fits(c, f, s)
    ensures Fits(c, f, t) && |t.register| == |s.register|
    decreases |data|
  {
    if data == [] then s else After(c, f, NextState(c, f, s, forward, data[0]), forward, data[1..])
  }

  ghost function Output(c: BlockCipher, f: nat, s: State, forward: bool, data: seq<Byte>): (r: seq<Byte>)
    requires Fits(c, f, s)
    ensures |r| == |data|
    decreases |data|
  {
    if data == [] then [] else [OutputByte(c, f, s, data[0])] + Output(c, f, NextState(c, f, s, forward, data[0]), forward, data[1..])
  }

  lemma {:induction false} RunAppend(c: BlockCipher, f: nat, s: State, forward: bool, a: seq<Byte>, b: seq<Byte>)
    requires Fits(c, f, s)
    ensures var t := After(c, f, s, forward, a);
            After(c, f, s, forward, a + b) == After(c, f, t, forward, b) &&
            Output(c, f, s, forward, a + b) == Output(c, f, s, forward, a) + Output(c, f, t, forward, b)
    decreases |a|
  {
    hide Fits, NextState, OutputByte;
    if a == [] {
      assert a + b == b;
    } else {
      assert (a + b)[1..] == a[1..] + b;
      RunAppend(c, f, NextState(c, f, s, forward, a[0]), forward, a[1..], b);
    }
  }

  /** Encrypting and decrypting registers agree after every byte, so decryption gives the message back. */
  lemma {:induction false} DecryptsBytes(c: BlockCipher, f: nat, s: State, data: seq<Byte>)
    requires Fits(c, f, s)
    ensures var out := Output(c, f, s, true, data);
            Output(c, f, s, false, out) == data && After(c, f, s, false, out) == After(c, f, s, true, data)
    decreases |data|
  {
    if data != [] {
      var out := Output(c, f, s, true, data);
      var t := NextState(c, f, s, true, data[0]);
      SameRegister(c, f, s, data[0]);
      hide NextState, OutputByte, Fits;
      assert out[1..] == Output(c, f, t, true, data[1..]);
      DecryptsBytes(c, f, t, data[1..]);
    }
  }

  lemma SameRegister(c: BlockCipher, f: nat, s: State, b: Byte)
    requires Fits(c, f, s)
    ensures var out := OutputByte(c, f, s, b);
            NextState(c, f, s, false, out) == NextState(c, f, s, true, b) && OutputByte(c, f, s, out) == b
  {
    hide Xor, KeepsLength;
    var t := Ready(c, f, s);
    XorInverse(b, t.register[|t.register| - t.leftOver]);
  }

  /** The outputs of calls on successive pieces. */
  ghost function Pieces(c: BlockCipher, f: nat, s: State, forward: bool, pieces: seq<seq<Byte>>): (r: seq<seq<Byte>>)
    requires Fits(c, f, s)
    ensures |r| == |pieces|
    decreases |pieces|
  {
    if pieces == [] then []
    else [Output(c, f, s, forward, pieces[0])] + Pieces(c, f, After(c, f, s, forward, pieces[0]), forward, pieces[1..])
  }

  lemma {:induction false} PiecesJoined(c: BlockCipher, f: nat, s: State, forward: bool, pieces: seq<seq<Byte>>)
    requires Fits(c, f, s)
    ensures Joined(Pieces(c, f, s, forward, pieces)) == Output(c, f, s, forward, Joined(pieces))
    decreases |pieces|
  {
    if pieces != [] {
      PiecesUnfold(c, f, s, forward, pieces);
      hide Fits, Output, After, Pieces, Joined;
      PiecesJoined(c, f, After(c, f, s, forward, pieces[0]), forward, pieces[1..]);
      JoinedFirst(pieces);
      JoinedFirst(Pieces(c, f, s, forward, pieces));
      RunAppend(c, f, s, forward, pieces[0], Joined(pieces[1..]));
    }
  }

  lemma PiecesUnfold(c: BlockCipher, f: nat, s: State, forward: bool, pieces: seq<seq<Byte>>)
    requires Fits(c, f, s) && pieces != []
    ensures var r := Pieces(c, f, s, forward, pieces);
            r[0] == Output(c, f, s, forward, pieces[0]) && r[1..] == Pieces(c, f, After(c, f, s, forward, pieces[0]), forward, pieces[1..])
  {
  }

  // ---- Runs of bytes inside one segment ----

  /** Bytes that find room in the register: output and feedback without transforming it. */
  lemma {:induction false} WithinSegment(c: BlockCipher, f: nat, s: State, forward: bool, data: seq<Byte>)
    requires Fits(c, f, s) && |data| <= s.leftOver
    ensures var p := |s.register| - s.leftOver;
            var out := XorBytes(s.register[p..p + |data|], data);
            Output(c, f, s, forward, data) == out &&
            After(c, f, s, forward, data) == State(Overwritten(s.register, p, if forward then out else data), s.leftOver - |data|)
    decreases |data|
  {
    hide Fits, NextState, OutputByte, XorBytes, Overwritten, Xor;
    var p := |s.register| - s.leftOver;
    FitsRoom(c, f, s);
    if data == [] {
      NoBytes(c, f, s, forward);
      NothingWritten(s.register, p);
    } else {
      OneByte(c, f, s, forward, data[0]);
      WithinSegment(c, f, NextState(c, f, s, forward, data[0]), forward, data[1..]);
      SegmentStep(s.register, p, data, forward);
    }
  }

  lemma FitsRoom(c: BlockCipher, f: nat, s: State)
    requires Fits(c, f, s)
    ensures s.leftOver <= |s.register|
  {
  }

  lemma NothingWritten(register: seq<Byte>, p: nat)
    requires p <= |register|
    ensures Overwritten(register, p, []) == register && XorBytes(register[p..p], []) == []
  {
  }

  lemma OneByte(c: BlockCipher, f: nat, s: State, forward: bool, b: Byte)
    requires Fits(c, f, s) && 0 < s.leftOver
    ensures var p := |s.register| - s.leftOver;
            var out := Xor(s.register[p], b);
            OutputByte(c, f, s, b) == out && NextState(c, f, s, forward, b) == State(s.register[p := if forward then out else b], s.leftOver - 1)
  {
    hide Xor;
  }

  lemma SegmentStep(register: seq<Byte>, p: nat, data: seq<Byte>, forward: bool)
    requires data != [] && p + |data| <= |register|
    ensures var n := |data|;
            var first := Xor(register[p], data[0]);
            var out := XorBytes(register[p..p + n], data);
            var register' := register[p := if forward then first else data[0]];
            var rest := XorBytes(register'[p + 1..p + n], data[1..]);
            out == [first] + rest && Overwritten(register', p + 1, if forward then rest else data[1..])
                                  == Overwritten(register, p, if forward then out else data)
  {
    hide Xor;
    var n := |data|;
    var first := Xor(register[p], data[0]);
    var out := XorBytes(register[p..p + n], data);
    var register' := register[p := if forward then first else data[0]];
    assert register'[p + 1..p + n] == register[p..p + n][1..];
    var rest := XorBytes(register'[p + 1..p + n], data[1..]);
    assert out == [first] + rest;
    FirstThenRest(register, p, if forward then out else data);
  }

  lemma FirstThenRest(s: seq<Byte>, p: nat, x: seq<Byte>)
    requires x != [] && p + |x| <= |s|
    ensures Overwritten(s[p := x[0]], p + 1, x[1..]) == Overwritten(s, p, x)
  {
  }

  /** A whole segment, starting from a register that is still to be transformed, and the rest after it. */
  lemma SegmentIsNist(c: BlockCipher, f: nat, s: State, forward: bool, data: seq<Byte>, n: nat)
    requires Fits(c, f, s) && s.leftOver == 0 && 0 < n <= f && n <= |data|
    ensures var t := Ready(c, f, s);
            var out := XorBytes(c(s.register)[..n], data[..n]);
            Output(c, f, s, forward, data[..n]) == out &&
            (n == f ==> After(c, f, s, forward, data[..n]) == State(s.register[f..] + (if forward then out else data[..n]), 0))
  {
    hide NextState, OutputByte, KeepsLength, XorBytes, Output, After;
    var t := Ready(c, f, s);
    FromReady(c, f, s, forward, data[..n]);
    WithinSegment(c, f, t, forward, data[..n]);
    TransformedSlices(c, f, s.register, n);
    if n == f { NewEnd(s.register[f..], c(s.register)[..f], if forward then XorBytes(c(s.register)[..n], data[..n]) else data[..n]); }
  }

  lemma TransformedSlices(c: BlockCipher, f: nat, register: seq<Byte>, n: nat)
    requires 0 < f <= |register| && KeepsLength(c, |register|) && n <= f
    ensures |c(register)| == |register|
    ensures var p := |register| - f; Transformed(c, f, register)[p..p + n] == c(register)[..n]
  {
  }

  lemma NewEnd(a: seq<Byte>, b: seq<Byte>, x: seq<Byte>)
    requires |x| == |b|
    ensures Overwritten(a + b, |a|, x) == a + x
  {
  }

  lemma FromReady(c: BlockCipher, f: nat, s: State, forward: bool, data: seq<Byte>)
    requires Fits(c, f, s) && data != []
    ensures Output(c, f, s, forward, data) == Output(c, f, Ready(c, f, s), forward, data)
    ensures After(c, f, s, forward, data) == After(c, f, Ready(c, f, s), forward, data)
  {
    var t := Ready(c, f, s);
    assert Ready(c, f, t) == t;
    assert NextState(c, f, s, forward, data[0]) == NextState(c, f, t, forward, data[0]);
    assert OutputByte(c, f, s, data[0]) == OutputByte(c, f, t, data[0]);
  }

  /** The byte machine computes the mode of the standard. */
  lemma {:induction false} OutputIsNist(c: BlockCipher, f: nat, s: State, forward: bool, data: seq<Byte>)
    requires Fits(c, f, s) && s.leftOver == 0
    ensures Output(c, f, s, forward, data) == Nist(c, f, s.register, forward, data)
    decreases |data|
  {
    hide NextState, OutputByte, Output, After;
    if data == [] {
      NoBytes(c, f, s, forward);
    } else if |data| < f {
      SegmentIsNist(c, f, s, forward, data, |data|);
      assert data[..|data|] == data;
    } else {
      SegmentIsNist(c, f, s, forward, data, f);
      var t := After(c, f, s, forward, data[..f]);
      assert data == data[..f] + data[f..];
      RunAppend(c, f, s, forward, data[..f], data[f..]);
      OutputIsNist(c, f, t, forward, data[f..]);
    }
  }

  lemma NoBytes(c: BlockCipher, f: nat, s: State, forward: bool)
    requires Fits(c, f, s)
    ensures Output(c, f, s, forward, []) == [] && After(c, f, s, forward, []) == s
  {
  }

  /** The state after setting a key and an initial value. */
  ghost function Start(c: BlockCipher, f: nat, iv: seq<Byte>): (s: State)
    requires 0 < f <= |iv| && KeepsLength(c, |iv|)
    ensures Fits(c, f, s)
  {
    State(Transformed(c, f, iv), f)
  }

  lemma StartIsNist(c: BlockCipher, f: nat, iv: seq<Byte>, forward: bool, data: seq<Byte>)
    requires 0 < f <= |iv| && KeepsLength(c, |iv|)
    ensures Output(c, f, Start(c, f, iv), forward, data) == Nist(c, f, iv, forward, data)
  {
    hide NextState, OutputByte, Output, After;
    OutputIsNist(c, f, State(iv, 0), forward, data);
    if data == [] {
      NoBytes(c, f, Start(c, f, iv), forward);
      NoBytes(c, f, State(iv, 0), forward);
    } else {
      FromReady(c, f, State(iv, 0), forward, data);
    }
  }

  /** From the start, any cutting of the message into calls gives the standard's result. */
  lemma PiecesAreNist(c: BlockCipher, f: nat, iv: seq<Byte>, forward: bool, pieces: seq<seq<Byte>>)
    requires 0 < f <= |iv| && KeepsLength(c, |iv|)
    ensures Joined(Pieces(c, f, Start(c, f, iv), forward, pieces)) == Nist(c, f, iv, forward, Joined(pieces))
  {
    PiecesJoined(c, f, Start(c, f, iv), forward, pieces);
    StartIsNist(c, f, iv, forward, Joined(pieces));
  }

  /** Decryption under the same key, initial value and feedback size inverts encryption, for any two cuttings. */
  lemma DecryptsAnySplitting(c: BlockCipher, f: nat, iv: seq<Byte>, plain: seq<seq<Byte>>, received: seq<seq<Byte>>)
    requires 0 < f <= |iv| && KeepsLength(c, |iv|)
    requires Joined(received) == Joined(Pieces(c, f, Start(c, f, iv), true, plain))
    ensures Joined(Pieces(c, f, Start(c, f, iv), false, received)) == Joined(plain)
  {
    var s := Start(c, f, iv);
    PiecesJoined(c, f, s, true, plain);
    PiecesJoined(c, f, s, false, received);
    DecryptsBytes(c, f, s, Joined(plain));
  }

  // ---- The cipher object ----

  lemma WholeOverwritten(s: seq<Byte>, x: seq<Byte>)
    requires |x| == |s|
    ensures Overwritten(s, 0, x) == x
  {
  }

  lemma ShiftedIn(s: seq<Byte>, x: seq<Byte>)
    requires |x| <= |s|
    ensures Overwritten(Overwritten(s, 0, s[|x|..]), |s| - |x|, x) == s[|x|..] + x
  {
  }

  /** CFB_CipherTemplate over CFB_ModePolicy, which never iterates several blocks at once. */
  class CfbCipher {
    const cipher: BlockCipher
    const forward: bool
    const register: array<Byte>
    const temp: array<Byte>
    const feedbackSize: nat
    var leftOver: nat

    ghost predicate Valid()
      reads this
    {
      0 < feedbackSize <= register.Length && temp.Length == register.Length && temp != register &&
      KeepsLength(cipher, register.Length) && leftOver <= feedbackSize
    }

    ghost function View(): (s: State)
      requires Valid()
      reads this, register
      ensures Fits(cipher, feedbackSize, s)
    {
      State(register[..], leftOver)
    }

    /** SetKey: feedback size 0 stands for the block size. */
    constructor (cipher: BlockCipher, forward: bool, feedbackSize: nat, iv: seq<Byte>)
      requires 0 < |iv| && KeepsLength(cipher, |iv|) && feedbackSize <= |iv|
      ensures this.cipher == cipher && this.forward == forward && fresh(register) && fresh(temp) && register.Length == |iv|
      ensures this.feedbackSize == if feedbackSize == 0 then |iv| else feedbackSize
      ensures Valid() && View() == Start(cipher, this.feedbackSize, iv)
    {
      this.cipher, this.forward := cipher, forward;
      this.feedbackSize := if feedbackSize != 0 then feedbackSize else |iv|;
      register := new Byte[|iv|](_ => 0);
      temp := new Byte[|iv|](_ => 0);
      leftOver := 0;
      new;
      Resynchronize(iv);
    }

    /** A feedback size beyond the block size is refused. */
    static method Create(cipher: BlockCipher, forward: bool, feedbackSize: nat, iv: seq<Byte>) returns (r: CfbCipher?)
      requires 0 < |iv| && KeepsLength(cipher, |iv|)
      ensures r == null <==> feedbackSize > |iv|
      ensures r != null ==> r.feedbackSize == if feedbackSize == 0 then |iv| else feedbackSize
      ensures r != null ==> r.Valid() && r.cipher == cipher && r.forward == forward && r.View() == Start(cipher, r.feedbackSize, iv)
      ensures r != null ==> fresh(r) && fresh(r.register) && fresh(r.temp)
    {
      if feedbackSize > |iv| {
        return null;
      }
      r := new CfbCipher(cipher, forward, feedbackSize, iv);
    }

    method Resynchronize(iv: seq<Byte>)
      requires Valid() && |iv| == register.Length
      modifies this, register, temp
      ensures Valid() && View() == Start(cipher, feedbackSize, iv)
    {
      Memcpy(register, 0, iv);
      assert register[..] == iv;
      TransformRegister();
      leftOver := feedbackSize;
    }

    method TransformRegister()
      requires Valid()
      modifies register, temp
      ensures register[..] == Transformed(cipher, feedbackSize, old(register[..]))
    {
      hide Overwritten;
      var blockSize := register.Length;
      ghost var before, encrypted := register[..], cipher(register[..]);
      WholeOverwritten(temp[..], encrypted);
      Memcpy(temp, 0, cipher(register[..]));
      Memcpy(register, 0, register[feedbackSize..]);
      ShiftedIn(before, encrypted[..feedbackSize]);
      Memcpy(register, blockSize - feedbackSize, temp[..feedbackSize]);
    }

    /** Bytes of the message meet bytes of the register; output may be written over the input itself. */
    method CombineMessageAndShiftRegister(output: array<Byte>, outAt: nat, reg: nat, input: array<Byte>, inAt: nat, length: nat)
      requires reg + length <= register.Length && outAt + length <= output.Length && inAt + length <= input.Length
      requires output != register && input != register && (output == input ==> outAt == inAt)
      modifies register, output
      ensures var message := old(input[inAt..inAt + length]);
              var out := XorBytes(old(register[reg..reg + length]), message);
              output[..] == Overwritten(old(output[..]), outAt, out) &&
              register[..] == Overwritten(old(register[..]), reg, if forward then out else message)
    {
      hide Xor, XorBytes, Overwritten;
      if forward {
        XorBuf(reg, input, inAt, length);
        OverwrittenSlice(old(register[..]), reg, XorBytes(old(register[reg..reg + length]), old(input[inAt..inAt + length])), 0, 0);
        Memcpy(output, outAt, register[reg..reg + length]);
      } else {
        XorAndFeed(output, outAt, reg, input, inAt, length);
      }
    }

    /** Encryption: the register becomes the ciphertext. */
    method XorBuf(reg: nat, input: array<Byte>, inAt: nat, length: nat)
      requires reg + length <= register.Length && inAt + length <= input.Length && input != register
      modifies register
      ensures register[..] == Overwritten(old(register[..]), reg, XorBytes(old(register[reg..reg + length]), input[inAt..inAt + length]))
    {
      hide Xor, Overwritten;
      ghost var register0 := register[..];
      ghost var out := XorBytes(register0[reg..reg + length], input[inAt..inAt + length]);
      OverwrittenEnds(register0, reg, out);
      for i := 0 to length
        invariant register[..] == Overwritten(register0, reg, out[..i])
      {
        OverwrittenNext(register0, reg, out, i);
        register[reg + i] := Xor(register[reg + i], input[inAt + i]);
      }
    }

    /** Decryption: the register takes in the ciphertext, byte by byte, as the plaintext comes out. */
    method XorAndFeed(output: array<Byte>, outAt: nat, reg: nat, input: array<Byte>, inAt: nat, length: nat)
      requires reg + length <= register.Length && outAt + length <= output.Length && inAt + length <= input.Length
      requires output != register && input != register && (output == input ==> outAt == inAt)
      modifies register, output
      ensures var message := old(input[inAt..inAt + length]);
              output[..] == Overwritten(old(output[..]), outAt, XorBytes(old(register[reg..reg + length]), message)) &&
              register[..] == Overwritten(old(register[..]), reg, message)
    {
      hide Xor, Overwritten;
      ghost var register0, output0, message := register[..], output[..], input[inAt..inAt + length];
      ghost var out := XorBytes(register0[reg..reg + length], message);
      OverwrittenEnds(register0, reg, message);
      OverwrittenEnds(output0, outAt, out);
      for i := 0 to length
        invariant register[..] == Overwritten(register0, reg, message[..i])
        invariant output[..] == Overwritten(output0, outAt, out[..i])
        invariant input[inAt + i..inAt + length] == message[i..]
      {
        OverwrittenNext(register0, reg, message, i);
        OverwrittenNext(output0, outAt, out, i);
        var b := input[inAt + i];
        assert b == message[i..][0] == message[i];
        assert input[inAt + i + 1..inAt + length] == input[inAt + i..inAt + length][1..];
        output[outAt + i] := Xor(register[reg + i], b);
        register[reg + i] := b;
      }
    }

    /** Part of the message inside one segment of the register. */
    method ProcessSegment(output: array<Byte>, outAt: nat, input: array<Byte>, inAt: nat, length: nat)
      requires Valid() && length <= leftOver && outAt + length <= output.Length && inAt + length <= input.Length
      requires output != register && output != temp && input != register && input != temp && (output == input ==> outAt == inAt)
      modifies this`leftOver, register, output
      ensures Valid() && Processed(cipher, feedbackSize, forward, old(View()), View(), old(input[inAt..inAt + length]), old(output[..]), output[..], outAt)
      ensures leftOver == old(leftOver) - length
    {
      hide Xor, XorBytes, Overwritten, Fits, KeepsLength;
      WithinSegment(cipher, feedbackSize, View(), forward, input[inAt..inAt + length]);
      CombineMessageAndShiftRegister(output, outAt, register.Length - leftOver, input, inAt, length);
      leftOver := leftOver - length;
    }

    method NextSegment(output: array<Byte>, outAt: nat, input: array<Byte>, inAt: nat, length: nat)
      requires Valid() && leftOver == 0 < length <= feedbackSize && outAt + length <= output.Length && inAt + length <= input.Length
      requires output != register && output != temp && input != register && input != temp && (output == input ==> outAt == inAt)
      modifies this`leftOver, register, temp, output
      ensures Valid() && Processed(cipher, feedbackSize, forward, old(View()), View(), old(input[inAt..inAt + length]), old(output[..]), output[..], outAt)
      ensures leftOver == feedbackSize - length
    {
      hide Xor, XorBytes, Overwritten, Transformed;
      FromReady(cipher, feedbackSize, View(), forward, input[inAt..inAt + length]);
      TransformRegister();
      leftOver := feedbackSize;
      ProcessSegment(output, outAt, input, inAt, length);
    }

    method ProcessData(output: array<Byte>, outAt: nat, input: array<Byte>, inAt: nat, length: nat)
      requires Valid() && outAt + length <= output.Length && inAt + length <= input.Length
      requires output != register && output != temp && input != register && input != temp && (output == input ==> outAt == inAt)
      modifies this`leftOver, register, temp, output
      ensures Valid() && Processed(cipher, feedbackSize, forward, old(View()), View(), old(input[inAt..inAt + length]), old(output[..]), output[..], outAt)
    {
      hide Xor, XorBytes, Processed, Fits, KeepsLength, Partway;
      ghost var s, message, output0 := View(), input[inAt..inAt + length], output[..];
      var left, done := length, 0;
      AtTheStart(output, outAt, input, inAt, length);
      if leftOver != 0 {
        done := Min(leftOver, left);
        ProcessPart(output, outAt, input, inAt, 0, done, length, s, message, output0);
        left := left - done;
      }
      while left >= feedbackSize
        invariant Valid() && 0 <= done && 0 <= left && done + left == length && (left > 0 ==> leftOver == 0)
        invariant Partway(output, outAt, input, inAt, done, length, s, message, output0)
      {
        ProcessPart(output, outAt, input, inAt, done, feedbackSize, length, s, message, output0);
        done := done + feedbackSize;
        left := left - feedbackSize;
      }
      if left > 0 {
        ProcessPart(output, outAt, input, inAt, done, left, length, s, message, output0);
        done := length;
      }
      AtTheEnd(output, outAt, input, inAt, length, s, message, output0);
    }

    /** The first `done` bytes of the message have been processed, and the rest of it is still in the input. */
    ghost predicate Partway(output: array<Byte>, outAt: nat, input: array<Byte>, inAt: nat, done: nat, length: nat,
                            s: State, message: seq<Byte>, output0: seq<Byte>)
      requires Valid()
      reads this, register, output, input
    {
      done <= length == |message| && inAt + length <= input.Length &&
      Processed(cipher, feedbackSize, forward, s, View(), message[..done], output0, output[..], outAt) &&
      input[inAt + done..inAt + length] == message[done..]
    }

    lemma AtTheStart(output: array<Byte>, outAt: nat, input: array<Byte>, inAt: nat, length: nat)
      requires Valid() && outAt + length <= output.Length && inAt + length <= input.Length
      ensures Partway(output, outAt, input, inAt, 0, length, View(), input[inAt..inAt + length], output[..])
    {
      hide Processed, Fits, KeepsLength;
      var message := input[inAt..inAt + length];
      Unprocessed(cipher, feedbackSize, forward, View(), output[..], outAt);
      assert message[..0] == [] && message[0..] == message;
    }

    lemma AtTheEnd(output: array<Byte>, outAt: nat, input: array<Byte>, inAt: nat, length: nat, s: State, message: seq<Byte>, output0: seq<Byte>)
      requires Valid() && Partway(output, outAt, input, inAt, length, length, s, message, output0)
      ensures Processed(cipher, feedbackSize, forward, s, View(), message, output0, output[..], outAt)
    {
      hide Processed, Fits, KeepsLength;
      assert message[..length] == message;
    }

    /** The next n bytes of a message, after the first `done` ones. */
    method ProcessPart(output: array<Byte>, outAt: nat, input: array<Byte>, inAt: nat, done: nat, n: nat, length: nat,
                       ghost s: State, ghost message: seq<Byte>, ghost output0: seq<Byte>)
      requires Valid() && done + n <= length == |message| && outAt + length <= output.Length && inAt + length <= input.Length
      requires output != register && output != temp && input != register && input != temp && (output == input ==> outAt == inAt)
      requires if leftOver == 0 then 0 < n <= feedbackSize else n <= leftOver
      requires Partway(output, outAt, input, inAt, done, length, s, message, output0)
      modifies this`leftOver, register, temp, output
      ensures Valid() && leftOver == (if old(leftOver) == 0 then feedbackSize else old(leftOver)) - n
      ensures Partway(output, outAt, input, inAt, done + n, length, s, message, output0)
    {
      hide Xor, XorBytes, Processed, Fits, KeepsLength;
      ghost var t, o1, in1 := View(), output[..], input[..];
      Piece(input[..], inAt, done, n, length, message);
      if leftOver == 0 {
        NextSegment(output, outAt + done, input, inAt + done, n);
      } else {
        ProcessSegment(output, outAt + done, input, inAt + done, n);
      }
      ProcessedTwice(cipher, feedbackSize, forward, s, t, View(), message[..done], message[done..done + n], output0, o1, output[..], outAt);
      RestKept(cipher, feedbackSize, forward, t, View(), message[done..done + n], o1, output[..], outAt + done, outAt + done + n, outAt + length);
      if output == input {
        assert input[inAt + done + n..inAt + length] == output[..][outAt + done + n..outAt + length];
      }
    }
  }

  lemma Piece(s: seq<Byte>, at: nat, done: nat, n: nat, length: nat, message: seq<Byte>)
    requires done + n <= length == |message| && at + length <= |s| && s[at + done..at + length] == message[done..]
    ensures s[at + done..at + done + n] == message[done..done + n]
    ensures s[at + done + n..at + length] == message[done + n..]
    ensures message[..done + n] == message[..done] + message[done..done + n]
  {
    var rest := s[at + done..at + length];
    assert rest[..n] == s[at + done..at + done + n] && rest[n..] == s[at + done + n..at + length];
    assert message[done..][..n] == message[done..done + n] && message[done..][n..] == message[done + n..];
  }

  lemma RestKept(c: BlockCipher, f: nat, forward: bool, s: State, t: State, message: seq<Byte>,
                 before: seq<Byte>, after: seq<Byte>, at: nat, i: nat, j: nat)
    requires Processed(c, f, forward, s, t, message, before, after, at) && at + |message| <= i <= j <= |before|
    ensures j <= |after| && after[i..j] == before[i..j]
  {
    OverwrittenSlice(before, at, Output(c, f, s, forward, message), i, j);
  }

  /** The message went through the register, and its result lies in the output from the given place on. */
  ghost predicate Processed(c: BlockCipher, f: nat, forward: bool, s: State, t: State, message: seq<Byte>,
                            before: seq<Byte>, after: seq<Byte>, at: nat) {
    Fits(c, f, s) && at + |message| <= |before| && t == After(c, f, s, forward, message) &&
    after == Overwritten(before, at, Output(c, f, s, forward, message))
  }

  lemma Unprocessed(c: BlockCipher, f: nat, forward: bool, s: State, before: seq<Byte>, at: nat)
    requires Fits(c, f, s) && at <= |before|
    ensures Processed(c, f, forward, s, s, [], before, before, at)
  {
    OverwrittenEnds(before, at, []);
  }

  lemma ProcessedTwice(c: BlockCipher, f: nat, forward: bool, s: State, t: State, u: State, a: seq<Byte>, b: seq<Byte>,
                       o0: seq<Byte>, o1: seq<Byte>, o2: seq<Byte>, at: nat)
    requires Processed(c, f, forward, s, t, a, o0, o1, at) && Processed(c, f, forward, t, u, b, o1, o2, at + |a|)
    ensures Processed(c, f, forward, s, u, a + b, o0, o2, at)
  {
    hide Fits, Output, After, Overwritten;
    RunAppend(c, f, s, forward, a, b);
    OverwrittenTwice(o0, at, Output(c, f, s, forward, a), Output(c, f, t, forward, b));
  }

  // ---- Two ciphers ----

  /** Successive calls of ProcessData on the pieces of a message. */
  method ProcessPieces(cipher: CfbCipher, pieces: seq<seq<Byte>>) returns (out: seq<Byte>)
    requires cipher.Valid()
    modifies cipher`leftOver, cipher.register, cipher.temp
    ensures cipher.Valid()
    ensures out == Output(cipher.cipher, cipher.feedbackSize, old(cipher.View()), cipher.forward, Joined(pieces))
    ensures cipher.View() == After(cipher.cipher, cipher.feedbackSize, old(cipher.View()), cipher.forward, Joined(pieces))
  {
    hide Output, After, Joined, Fits, KeepsLength;
    ghost var s := cipher.View();
    out := [];
    NoBytes(cipher.cipher, cipher.feedbackSize, s, cipher.forward);
    JoinedNothing(pieces);
    for i := 0 to |pieces|
      invariant cipher.Valid()
      invariant out == Output(cipher.cipher, cipher.feedbackSize, s, cipher.forward, Joined(pieces[..i]))
      invariant cipher.View() == After(cipher.cipher, cipher.feedbackSize, s, cipher.forward, Joined(pieces[..i]))
    {
      JoinedNext(pieces, i);
      RunAppend(cipher.cipher, cipher.feedbackSize, s, cipher.forward, Joined(pieces[..i]), pieces[i]);
      var more := ProcessPiece(cipher, pieces[i]);
      out := out + more;
    }
    assert pieces[..|pieces|] == pieces;
  }

  method ProcessPiece(cipher: CfbCipher, piece: seq<Byte>) returns (out: seq<Byte>)
    requires cipher.Valid()
    modifies cipher`leftOver, cipher.register, cipher.temp
    ensures cipher.Valid()
    ensures out == Output(cipher.cipher, cipher.feedbackSize, old(cipher.View()), cipher.forward, piece)
    ensures cipher.View() == After(cipher.cipher, cipher.feedbackSize, old(cipher.View()), cipher.forward, piece)
  {
    hide Output, After, Fits, KeepsLength, Overwritten;
    var input := new Byte[|piece|](i requires 0 <= i < |piece| => piece[i]);
    var output := new Byte[|piece|](_ => 0);
    ghost var s := cipher.View();
    ghost var before := output[..];
    assert input[0..|piece|] == piece;
    cipher.ProcessData(output, 0, input, 0, |piece|);
    WholeOverwritten(before, Output(cipher.cipher, cipher.feedbackSize, s, cipher.forward, piece));
    out := output[..];
  }

  /** Two ciphers with the same key, initial value and feedback size: what is sent is the standard's ciphertext, and
      the message comes back, however either side cuts the stream. */
  method EncryptThenDecrypt(cipher: BlockCipher, feedbackSize: nat, iv: seq<Byte>, pieces: seq<seq<Byte>>,
                            recut: seq<Byte> -> seq<seq<Byte>>) returns (sent: seq<Byte>, data: seq<Byte>)
    requires 0 < |iv| && KeepsLength(cipher, |iv|) && feedbackSize <= |iv|
    requires forall text {:trigger recut(text)} :: Joined(recut(text)) == text
    ensures sent == Nist(cipher, if feedbackSize == 0 then |iv| else feedbackSize, iv, true, Joined(pieces))
    ensures data == Joined(pieces)
  {
    hide Output, After, Joined, Fits, Nist, Start;
    var sender := new CfbCipher(cipher, true, feedbackSize, iv);
    var receiver := new CfbCipher(cipher, false, feedbackSize, iv);
    ghost var f := sender.feedbackSize;
    sent := ProcessPieces(sender, pieces);
    StartIsNist(cipher, f, iv, true, Joined(pieces));
    data := ProcessPieces(receiver, recut(sent));
    DecryptsBytes(cipher, f, Start(cipher, f, iv), Joined(pieces));
  }
}
