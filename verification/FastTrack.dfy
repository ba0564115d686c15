/** The FastTrack stream cipher: a keystream generator that mangles its own pad. */
module FastTrack {
  import opened Integers
  import opened Bytes

  const PAD_SIZE := 63
  const LOOKUP_SIZE := 256
  const PAD16_SIZE := 20
  const UINT_MODULUS := 0x1_0000_0000

  type Uint = x: int | 0 <= x < 0x1_0000_0000
  type Pad = s: seq<Byte> | |s| == 63 witness seq(63, _ => 0)
  type Pad16 = s: seq<Uint> | |s| == 20 witness seq(20, _ => 0)

  datatype PadResult = PadReady(pad: Pad, seed: Uint) | NotSupported

  /** The pad mixers and MD5, as functions of their inputs: of the MD5 digest only the first word is used. */
  datatype Routines = Routines(
    padInit: (Uint, Uint) -> PadResult,
    encType2: (Pad16, Uint) -> Pad16,
    md5Word: Pad -> Uint)

  predicate HasFlag(encType: Uint, flag: nat)
    requires flag > 0
  {
    encType / flag % 2 == 1
  }

  function SeedStep(seed: Uint): Uint {
    (0x10dcd * seed + 0x4271) % UINT_MODULUS
  }

  /** n consecutive seeds after the given one. */
  function Seeds(seed: Uint, n: nat): seq<Uint>
    decreases n
  {
    if n == 0 then [] else [SeedStep(seed)] + Seeds(SeedStep(seed), n - 1)
  }

  lemma {:induction false} SeedsExtend(seed: Uint, n: nat)
    ensures |Seeds(seed, n)| == n && Seeds(seed, n + 1) == Seeds(seed, n) + [SeedStep(LastSeed(seed, n))]
    ensures LastSeed(seed, n + 1) == SeedStep(LastSeed(seed, n))
    decreases n
  {
    hide *;
    var next := SeedStep(seed);
    SeedsUnfold(seed, n);
    SeedsUnfold(next, 0);
    if n == 0 {
      assert [next] + [] == [] + [next];
    } else {
      SeedsUnfold(seed, n - 1);
      SeedsExtend(next, n - 1);
    }
  }

  lemma SeedsUnfold(seed: Uint, n: nat)
    ensures Seeds(seed, 0) == [] && LastSeed(seed, 0) == seed
    ensures Seeds(seed, n + 1) == [SeedStep(seed)] + Seeds(SeedStep(seed), n)
    ensures LastSeed(seed, n + 1) == LastSeed(SeedStep(seed), n)
  {
  }

  function LastSeed(seed: Uint, n: nat): Uint
    decreases n
  {
    if n == 0 then seed else LastSeed(SeedStep(seed), n - 1)
  }

  // ---- Sorting five bytes of the pad ----

  /** The order of the comparison routine: bytes with bit 5 inverted. */
  function SortKey(b: Byte): int {
    if b / 32 % 2 == 0 then b + 32 else b - 32
  }

  lemma SortKeyInjective(a: Byte, b: Byte)
    ensures SortKey(a) == SortKey(b) ==> a == b
    ensures 0 <= SortKey(a) < 256
  {
  }

  predicate Sorted(s: seq<Byte>) {
    forall i, j :: 0 <= i < j < |s| ==> SortKey(s[i]) <= SortKey(s[j])
  }

  function Insert(b: Byte, s: seq<Byte>): (r: seq<Byte>)
    ensures |r| == |s| + 1 && multiset(r) == multiset(s) + multiset{b}
  {
    if s == [] || SortKey(b) <= SortKey(s[0]) then [b] + s
    else
      assert s == [s[0]] + s[1..];
      [s[0]] + Insert(b, s[1..])
  }

  function Sort(s: seq<Byte>): (r: seq<Byte>)
    ensures |r| == |s| && multiset(r) == multiset(s)
  {
    if s == [] then []
    else
      assert s == [s[0]] + s[1..];
      Insert(s[0], Sort(s[1..]))
  }

  lemma {:induction false} InsertSorted(b: Byte, s: seq<Byte>)
    requires Sorted(s)
    ensures Sorted(Insert(b, s))
  {
    if s != [] && SortKey(b) > SortKey(s[0]) {
      InsertSorted(b, s[1..]);
      InsertAbove(SortKey(s[0]), b, s[1..]);
      SortedPrepend(s[0], Insert(b, s[1..]));
    } else if s != [] {
      SortedPrepend(b, s);
    }
  }

  lemma SortedPrepend(b: Byte, s: seq<Byte>)
    requires Sorted(s) && forall j :: 0 <= j < |s| ==> SortKey(b) <= SortKey(s[j])
    ensures Sorted([b] + s)
  {
    hide SortKey;
  }

  lemma {:induction false} InsertAbove(low: int, b: Byte, s: seq<Byte>)
    requires low <= SortKey(b) && forall j :: 0 <= j < |s| ==> low <= SortKey(s[j])
    ensures forall j :: 0 <= j < |Insert(b, s)| ==> low <= SortKey(Insert(b, s)[j])
  {
    hide SortKey;
    if s != [] && SortKey(b) > SortKey(s[0]) {
      InsertAbove(low, b, s[1..]);
    }
  }

  lemma {:induction false} SortSorts(s: seq<Byte>)
    ensures Sorted(Sort(s))
  {
    if s != [] {
      SortSorts(s[1..]);
      InsertSorted(s[0], Sort(s[1..]));
    }
  }

  /** There is only one sorted arrangement: what a library sort leaves does not depend on how it works. */
  lemma {:induction false} SortedUnique(s: seq<Byte>, t: seq<Byte>)
    requires Sorted(s) && Sorted(t) && multiset(s) == multiset(t)
    ensures s == t
  {
    SameLength(s, t);
    if s != [] {
      SameFirst(s, t);
      assert s == [s[0]] + s[1..] && t == [t[0]] + t[1..];
      RestMultiset(s);
      RestMultiset(t);
      SortedUnique(s[1..], t[1..]);
    }
  }

  lemma SameLength(s: seq<Byte>, t: seq<Byte>)
    requires multiset(s) == multiset(t)
    ensures |s| == |t|
  {
    assert |s| == |multiset(s)| && |t| == |multiset(t)|;
  }

  lemma RestMultiset(s: seq<Byte>)
    requires s != []
    ensures multiset(s[1..]) == multiset(s) - multiset{s[0]}
  {
    assert s == [s[0]] + s[1..];
  }

  lemma SameFirst(s: seq<Byte>, t: seq<Byte>)
    requires Sorted(s) && Sorted(t) && multiset(s) == multiset(t) && s != [] && t != []
    ensures s[0] == t[0]
  {
    assert s[0] in multiset(t) && t[0] in multiset(s);
    var i :| 0 <= i < |t| && t[i] == s[0];
    var j :| 0 <= j < |s| && s[j] == t[0];
    SortKeyInjective(s[0], t[0]);
  }

  // ---- The state and one clock of it, as values ----

  datatype State = State(encType: Uint, pos: nat, wrapcount: Uint, addToLookup: Uint, pad: Pad, lookup: seq<Byte>, pad16: Pad16)
  {
    predicate Valid() {
      pos < PAD_SIZE && |lookup| == LOOKUP_SIZE
    }
  }

  /** Where the five bytes to sort begin. */
  function SortPosition(x: nat): (r: nat)
    ensures r + 5 <= PAD_SIZE
  {
    (x * x + 2) % 59
  }

  function SortedPad(pad: Pad, at: nat): Pad
    requires at + 5 <= PAD_SIZE
  {
    pad[..at] + Sort(pad[at..at + 5]) + pad[at + 5..]
  }

  /** Every third byte from the sixth on is complemented, shifted by its place, and made odd. */
  function ThirdByte(pad: Pad, i: nat): Byte
    requires i < PAD_SIZE
  {
    Or(Add8(255 - pad[i], i), 1)
  }

  function ThirdBytesTo(pad: Pad, end: nat): Pad {
    seq(PAD_SIZE, i requires 0 <= i < PAD_SIZE => if 5 <= i < end && (i - 5) % 3 == 0 then ThirdByte(pad, i) else pad[i])
  }

  function Mangled(pad: Pad, at: nat): Pad
    requires at + 5 <= PAD_SIZE
  {
    ThirdBytesTo(SortedPad(pad, at), PAD_SIZE)
  }

  function LastPosition(pos: nat): int {
    if pos > 0 then pos - 1 else PAD_SIZE - 1
  }

  function RunningTotal(s: State): Byte
    requires s.Valid()
  {
    Add8(s.pad[s.pos], s.pad[LastPosition(s.pos)])
  }

  /** The pad after the running total and, on occasion, the mangling. */
  function ClockedPad(s: State): Pad
    requires s.Valid()
  {
    var xor := RunningTotal(s);
    var pad := s.pad[s.pos := xor];
    if s.pos == 7 && xor / 16 % 8 == 0 then Mangled(pad, SortPosition(xor + pad[2])) else pad
  }

  /** Six bytes of the pad take in shifted words of the second pad. */
  function MixedTo(pad: Pad, pad16: Pad16, n: nat): Pad {
    var offset := pad[0x19] % 32;
    var shift := Pow2(pad[0x18] % 16);
    seq(PAD_SIZE, i requires 0 <= i < PAD_SIZE =>
      if offset <= i < offset + n && i - offset < PAD16_SIZE then Xor(pad[i], pad16[i - offset] / shift % 256) else pad[i])
  }

  function MixedPad(pad: Pad, pad16: Pad16): Pad {
    var mixed := MixedTo(pad, pad16, 6);
    var at := pad[0x19] % 32 + 4;
    mixed[at := Or(mixed[at], Pow2(mixed[0x0A] % 8))]
  }

  function NewPad16(routines: Routines, seed: Uint): Pad16 {
    SeedsExtend(seed, PAD16_SIZE);
    routines.encType2(Seeds(seed, PAD16_SIZE), SeedStep(LastSeed(seed, PAD16_SIZE)))
  }

  /** What happens each time the position wraps around. */
  function Wrapped(routines: Routines, s: State): State {
    var wrapcount := (s.wrapcount + 1) % UINT_MODULUS;
    var add := if HasFlag(s.encType, 0x08) then (s.addToLookup + 1) % UINT_MODULUS else s.addToLookup;
    var t := s.(pos := 0, wrapcount := wrapcount, addToLookup := add);
    if HasFlag(s.encType, 0x10) then
      t.(pad := MixedPad(s.pad, s.pad16), pad16 := if wrapcount % 16 == 0 then NewPad16(routines, wrapcount) else s.pad16)
    else t
  }

  function Step(routines: Routines, s: State): (t: State)
    requires s.Valid()
    ensures t.Valid()
  {
    var next := s.(pos := s.pos + 1, pad := ClockedPad(s));
    if next.pos == PAD_SIZE then Wrapped(routines, next) else next
  }

  /** The keystream byte of a clock. */
  function Output(routines: Routines, s: State): Byte
    requires s.Valid()
  {
    s.lookup[(Step(routines, s).addToLookup + RunningTotal(s)) % 256]
  }

  // ---- The same in numbers, index by index ----

  /** Consecutive seeds from the given one on. */
  ghost predicate SeedRun(w: seq<Uint>, start: int, n: nat) {
    |w| == n + 1 && w[0] == start && forall i :: 0 <= i < n ==> w[i + 1] == (0x10dcd * w[i] as int + 0x4271) % 0x1_0000_0000
  }

  /** Twenty seeds after the given one, mixed with the next. */
  ghost predicate IsNewPad16(routines: Routines, start: int, pad16: Pad16) {
    exists w: seq<Uint> {:trigger SeedRun(w, start, 21)} :: SeedRun(w, start, 21) && pad16 == routines.encType2(w[1..21], w[21])
  }

  /** The five bytes from at on are in ascending order, when bit 5 of each is inverted; the others are as before. */
  ghost predicate SortedAt(pad: Pad, at: int, sorted: Pad)
    requires 0 <= at < 59
  {
    multiset(sorted[at..at + 5]) == multiset(pad[at..at + 5]) &&
    (forall i, j :: at <= i < j < at + 5 ==> Xor(sorted[i], 0x20) <= Xor(sorted[j], 0x20)) &&
    forall i :: 0 <= i < 63 && !(at <= i < at + 5) ==> sorted[i] == pad[i]
  }

  /** Five bytes sorted; then the bytes 5, 8, 11 and so on complemented, with their index added, and made odd. */
  ghost predicate IsMangled(pad: Pad, at: int, mangled: Pad)
    requires 0 <= at < 59
  {
    exists sorted: Pad {:trigger SortedAt(pad, at, sorted)} :: SortedAt(pad, at, sorted) &&
      forall i :: 0 <= i < 63 ==> mangled[i] == if 5 <= i && i % 3 == 2 then (255 - sorted[i] as int + i) % 256 / 2 * 2 + 1 else sorted[i]
  }

  /** Six bytes exclusive-ored with shifted words; then a bit set in the fifth of them, chosen by byte 10. */
  ghost predicate IsMixed(pad: Pad, pad16: Pad16, result: Pad) {
    var offset, shift := pad[25] % 32, Pow2(pad[24] % 16);
    exists mixed: Pad {:trigger mixed[offset + 4]} ::
      (forall i :: 0 <= i < 63 ==>
         mixed[i] == if offset <= i < offset + 6 then Xor(pad[i], pad16[i - offset] / shift % 256) else pad[i]) &&
      result == mixed[offset + 4 := Or(mixed[offset + 4], Pow2(mixed[10] % 8))]
  }

  lemma {:induction false} SeedsRun(seed: Uint, n: nat)
    ensures SeedRun([seed] + Seeds(seed, n), seed, n) && ([seed] + Seeds(seed, n))[n] == LastSeed(seed, n)
  {
    hide Seeds, LastSeed;
    SeedsUnfold(seed, n);
    if n > 0 {
      SeedsRun(seed, n - 1);
      SeedsExtend(seed, n - 1);
      var w, w' := [seed] + Seeds(seed, n - 1), [seed] + Seeds(seed, n);
      assert w' == w + [SeedStep(LastSeed(seed, n - 1))];
    }
  }

  lemma NewPad16Is(routines: Routines, seed: Uint)
    ensures IsNewPad16(routines, seed, NewPad16(routines, seed))
  {
    hide Seeds, LastSeed, SeedRun, SeedStep;
    SeedsRun(seed, 21);
    SeedsExtend(seed, 20);
    var w := [seed] + Seeds(seed, 21);
    assert w[1..21] == Seeds(seed, 20) && w[21] == SeedStep(LastSeed(seed, 20));
  }

  lemma SortKeyIsXor(b: Byte)
    ensures SortKey(b) == Xor(b, 0x20)
  {
    hide *;
    XorFour(b, 8, 8);
    XorFour(b / 4, 2, 6);
    XorEven(b / 16, 1, 4);
    XorTop(b / 32);
    XorIs(b, 0x20);
    SortKeyTop(b);
  }

  lemma XorIs(a: Byte, b: Byte)
    ensures Xor(a, b) == XorBits(a, b, 8)
  {
  }

  lemma SortKeyTop(b: Byte)
    ensures b / 4 / 4 == b / 16 && b / 16 / 2 == b / 32
    ensures SortKey(b) == b % 4 + 4 * (b / 4 % 4 + 4 * (b / 16 % 2 + 2 * (if b / 32 % 2 == 0 then b / 32 + 1 else b / 32 - 1)))
  {
  }

  lemma XorFour(x: nat, c: nat, n: nat)
    requires 2 <= n
    ensures XorBits(x, 4 * c, n) == x % 4 + 4 * XorBits(x / 4, c, n - 2)
  {
    hide XorBits;
    XorEven(x, 2 * c, n);
    XorEven(x / 2, c, n - 1);
  }

  lemma XorEven(x: nat, c: nat, n: nat)
    requires 0 < n
    ensures XorBits(x, 2 * c, n) == x % 2 + 2 * XorBits(x / 2, c, n - 1)
  {
    hide *;
    XorStep(x, 2 * c, n);
    LowBit(0, c);
  }

  lemma XorTop(x: nat)
    requires x < 8
    ensures XorBits(x, 1, 3) == if x % 2 == 0 then x + 1 else x - 1
  {
    hide XorBits;
    XorStep(x, 1, 3);
    XorStep(x / 2, 0, 2);
    XorStep(x / 4, 0, 1);
    XorNone(x / 8, 0);
  }

  lemma SortedPadSorts(pad: Pad, at: nat)
    requires at < 59
    ensures SortedAt(pad, at, SortedPad(pad, at))
  {
    hide Xor, SortKey, Sort;
    var sorted := SortedPad(pad, at);
    SortSorts(pad[at..at + 5]);
    assert sorted[at..at + 5] == Sort(pad[at..at + 5]);
    forall i, j | at <= i < j < at + 5 ensures Xor(sorted[i], 0x20) <= Xor(sorted[j], 0x20) {
      SortKeyIsXor(sorted[i]);
      SortKeyIsXor(sorted[j]);
      assert sorted[i] == Sort(pad[at..at + 5])[i - at] && sorted[j] == Sort(pad[at..at + 5])[j - at];
    }
  }

  lemma OrOne(x: Byte)
    ensures Or(x, 1) == x / 2 * 2 + 1
  {
    hide BitOr;
    BitOrOne(x);
    BitOrZero(x / 2);
  }

  lemma BitOrOne(x: nat)
    ensures BitOr(x, 1) == 1 + 2 * BitOr(x / 2, 0)
  {
  }

  lemma ThirdByteIs(pad: Pad, i: nat)
    requires i < 63
    ensures ThirdByte(pad, i) == (255 - pad[i] as int + i) % 256 / 2 * 2 + 1
  {
    hide Or;
    OrOne((255 - pad[i] as int + i) % 256);
  }

  lemma MangledIs(pad: Pad, at: nat)
    requires at < 59
    ensures Mangled(pad, at) == ThirdBytesTo(SortedPad(pad, at), 63)
    ensures IsMangled(pad, at, Mangled(pad, at))
  {
    hide ThirdByte, SortedAt, SortedPad;
    SortedPadSorts(pad, at);
    var sorted := SortedPad(pad, at);
    forall i | 0 <= i < 63
      ensures Mangled(pad, at)[i] == if 5 <= i && i % 3 == 2 then (255 - sorted[i] as int + i) % 256 / 2 * 2 + 1 else sorted[i]
    {
      ThirdByteIs(sorted, i);
      Thirds(i);
    }
  }

  lemma Thirds(i: nat)
    ensures 5 <= i ==> ((i - 5) % 3 == 0 <==> i % 3 == 2)
  {
  }

  lemma MixedIs(pad: Pad, pad16: Pad16)
    ensures IsMixed(pad, pad16, MixedPad(pad, pad16))
  {
    hide Xor, Or, Pow2;
    var mixed := MixedTo(pad, pad16, 6);
  }

  lemma RunningTotalIs(s: State)
    requires s.Valid()
    ensures RunningTotal(s) == (s.pad[s.pos] as int + s.pad[(s.pos + 62) % 63]) % 256
  {
    if s.pos > 0 { DivModUnique(s.pos + 62, 63, 1, s.pos - 1); }
  }

  lemma StepUnfold(routines: Routines, s: State)
    requires s.Valid()
    ensures var total, t := RunningTotal(s), Step(routines, s);
            var summed := s.pad[s.pos := total];
            t.pos == (if s.pos == 62 then 0 else s.pos + 1) && Output(routines, s) == s.lookup[(t.addToLookup + total) % 256] &&
            t.pad == if s.pos == 7 && total / 16 % 8 == 0 then Mangled(summed, SortPosition(total + summed[2]))
                     else if s.pos == 62 && s.encType / 16 % 2 == 1 then MixedPad(summed, s.pad16) else summed
  {
    hide RunningTotal, Mangled, MixedPad, NewPad16, SortPosition;
  }

  /** One clock: position and keystream byte. */
  lemma StepOutput(routines: Routines, s: State)
    requires s.Valid()
    ensures var total := (s.pad[s.pos] as int + s.pad[(s.pos + 62) % 63]) % 256;
            var t := Step(routines, s);
            t.pos == (s.pos + 1) % 63 && Output(routines, s) == s.lookup[(t.addToLookup + total) % 256]
  {
    hide Mangled, MixedPad, Step, Output, RunningTotal, SortPosition;
    StepUnfold(routines, s);
    RunningTotalIs(s);
  }

  /** One clock: the pad. */
  lemma StepPad(routines: Routines, s: State)
    requires s.Valid()
    ensures var total := (s.pad[s.pos] as int + s.pad[(s.pos + 62) % 63]) % 256;
            var summed, pad := s.pad[s.pos := total], Step(routines, s).pad;
            if s.pos == 7 && total / 16 % 8 == 0 then
              var x := total + summed[2]; IsMangled(summed, (x * x + 2) % 59, pad)
            else if s.pos == 62 && s.encType / 16 % 2 == 1 then IsMixed(summed, s.pad16, pad)
            else pad == summed
  {
    hide IsMangled, IsMixed, Mangled, MixedPad, Step, Output, RunningTotal, SortPosition;
    StepUnfold(routines, s);
    RunningTotalIs(s);
    var total := RunningTotal(s);
    var summed := s.pad[s.pos := total];
    MangledAt(summed, total as int + summed[2]);
    MixedIs(summed, s.pad16);
  }

  lemma MangledAt(pad: Pad, x: nat)
    ensures IsMangled(pad, (x * x + 2) % 59, Mangled(pad, SortPosition(x)))
  {
    hide IsMangled, Mangled, SortPosition;
    SortPositionIs(x);
    MangledIs(pad, SortPosition(x));
  }

  lemma SortPositionIs(x: nat)
    ensures SortPosition(x) == (x * x + 2) % 59
  {
  }

  /** One clock: the counters and the second pad, which change only when the position wraps. */
  lemma StepCounters(routines: Routines, s: State)
    requires s.Valid()
    ensures var t, wraps := Step(routines, s), s.pos == 62;
            t.wrapcount == (if wraps then (s.wrapcount as int + 1) % 0x1_0000_0000 else s.wrapcount) &&
            t.addToLookup == (if wraps && s.encType / 8 % 2 == 1 then (s.addToLookup as int + 1) % 0x1_0000_0000 else s.addToLookup) &&
            t.encType == s.encType && t.lookup == s.lookup &&
            if wraps && s.encType / 16 % 2 == 1 && t.wrapcount % 16 == 0 then IsNewPad16(routines, t.wrapcount, t.pad16)
            else t.pad16 == s.pad16
  {
    hide IsNewPad16, MixedPad, NewPad16, ClockedPad;
    NewPad16Is(routines, Step(routines, s).wrapcount);
  }

  // ---- Whole runs ----

  function Clocks(routines: Routines, s: State, n: nat): (t: State)
    requires s.Valid()
    ensures t.Valid()
  {
    if n == 0 then s else Step(routines, Clocks(routines, s, n - 1))
  }

  /** Position and wrap count are a single counter in base 63; the lookup table never changes. */
  lemma {:induction false} ClocksCount(routines: Routines, s: State, n: nat)
    requires s.Valid()
    ensures var t := Clocks(routines, s, n);
            t.pos == (s.pos + n) % PAD_SIZE && t.wrapcount == (s.wrapcount + (s.pos + n) / PAD_SIZE) % UINT_MODULUS &&
            t.lookup == s.lookup && t.encType == s.encType
  {
    hide MixedPad, NewPad16, ClockedPad, HasFlag;
    if n > 0 {
      ClocksCount(routines, s, n - 1);
      CountUp(s.pos + n - 1, s.wrapcount);
    }
  }

  lemma CountUp(p: nat, w: nat)
    ensures if (p % PAD_SIZE) + 1 == PAD_SIZE
            then (p + 1) % PAD_SIZE == 0 && (w + (p + 1) / PAD_SIZE) % UINT_MODULUS == ((w + p / PAD_SIZE) % UINT_MODULUS + 1) % UINT_MODULUS
            else (p + 1) % PAD_SIZE == p % PAD_SIZE + 1 && (p + 1) / PAD_SIZE == p / PAD_SIZE
  {
    var q, r := p / PAD_SIZE, p % PAD_SIZE;
    if r + 1 == PAD_SIZE {
      DivModUnique(p + 1, PAD_SIZE, q + 1, 0);
      CountNext(w + q);
    } else {
      DivModUnique(p + 1, PAD_SIZE, q, r + 1);
    }
  }

  lemma CountNext(v: nat)
    ensures (v % UINT_MODULUS + 1) % UINT_MODULUS == (v + 1) % UINT_MODULUS
  {
    var q, r := v / UINT_MODULUS, v % UINT_MODULUS;
    if r + 1 == UINT_MODULUS {
      DivModUnique(v + 1, UINT_MODULUS, q + 1, 0);
      DivModUnique(r + 1, UINT_MODULUS, 1, 0);
    } else {
      DivModUnique(v + 1, UINT_MODULUS, q, r + 1);
      DivModUnique(r + 1, UINT_MODULUS, 0, r + 1);
    }
  }

  /** From a start with both counters at zero, the lookup offset counts the wraps or stays at zero. */
  lemma {:induction false} LookupOffset(routines: Routines, s: State, n: nat)
    requires s.Valid() && s.wrapcount == s.addToLookup == 0
    ensures var t := Clocks(routines, s, n);
            t.addToLookup == if HasFlag(s.encType, 0x08) then t.wrapcount else 0
    ensures Clocks(routines, s, n).encType == s.encType
  {
    hide MixedPad, NewPad16, ClockedPad;
    if n > 0 { LookupOffset(routines, s, n - 1); }
  }

  /** Bytes exclusive-ored with the keystream. */
  function Crypted(routines: Routines, s: State, data: seq<Byte>): (r: seq<Byte>)
    requires s.Valid()
    ensures |r| == |data|
    decreases |data|
  {
    if data == [] then []
    else [Xor(data[0], Output(routines, s))] + Crypted(routines, Step(routines, s), data[1..])
  }

  lemma {:induction false} ClocksFirst(routines: Routines, s: State, n: nat)
    requires s.Valid() && n > 0
    ensures Clocks(routines, s, n) == Clocks(routines, Step(routines, s), n - 1)
  {
    if n > 1 { ClocksFirst(routines, s, n - 1); }
  }

  lemma NoClocks(routines: Routines, s: State)
    requires s.Valid()
    ensures Clocks(routines, s, 0) == s
  {
  }

  lemma {:induction false} ClocksAdd(routines: Routines, s: State, m: nat, n: nat)
    requires s.Valid()
    ensures Clocks(routines, s, m + n) == Clocks(routines, Clocks(routines, s, m), n)
  {
    hide Step;
    if n > 0 { ClocksAdd(routines, s, m, n - 1); }
  }

  lemma {:induction false} CryptAppend(routines: Routines, s: State, a: seq<Byte>, b: seq<Byte>)
    requires s.Valid()
    ensures Crypted(routines, s, a + b) == Crypted(routines, s, a) + Crypted(routines, Clocks(routines, s, |a|), b)
    decreases |a|
  {
    hide Step, Output, Xor;
    if a == [] {
      assert a + b == b;
    } else {
      assert (a + b)[1..] == a[1..] + b;
      CryptAppend(routines, Step(routines, s), a[1..], b);
      ClocksFirst(routines, s, |a|);
    }
  }

  lemma {:induction false} CryptInverse(routines: Routines, s: State, data: seq<Byte>)
    requires s.Valid()
    ensures Crypted(routines, s, Crypted(routines, s, data)) == data
    decreases |data|
  {
    hide Step, Output, Xor;
    if data != [] {
      XorInverse(data[0], Output(routines, s));
      CryptInverse(routines, Step(routines, s), data[1..]);
      assert Crypted(routines, s, data)[1..] == Crypted(routines, Step(routines, s), data[1..]);
    }
  }

  lemma {:induction false} CryptedAt(routines: Routines, s: State, data: seq<Byte>, i: nat)
    requires s.Valid() && i < |data|
    ensures Crypted(routines, s, data)[i] == Xor(data[i], Output(routines, Clocks(routines, s, i)))
    decreases |data|
  {
    hide Step, Output, Xor;
    if i > 0 {
      CryptedAt(routines, Step(routines, s), data[1..], i - 1);
      ClocksFirst(routines, s, i);
    }
  }

  // ---- Running totals ----

  function Total(s: seq<Byte>): (n: nat) {
    if s == [] then 0 else Total(s[..|s| - 1]) + s[|s| - 1]
  }

  lemma TotalNext(pad: Pad, from: nat, to: nat)
    requires from <= to < 63
    ensures Total(pad[from..from]) == 0 && Total(pad[from..to + 1]) == Total(pad[from..to]) + pad[to]
  {
    assert pad[from..to + 1][..to - from] == pad[from..to];
  }

  /** No position is mangled in the next n clocks before the wrap. */
  ghost predicate Calm(s: State, n: nat)
    requires s.Valid()
  {
    s.pos + n <= 62 &&
    (s.pos <= 7 < s.pos + n ==> (s.pad[(s.pos + 62) % 63] + Total(s.pad[s.pos..8])) % 256 / 16 % 8 != 0)
  }

  /** Up to the next wrap or mangling each byte of the pad becomes the sum of the bytes from the last one before on. */
  lemma {:induction false} PadTotals(routines: Routines, s: State, n: nat)
    requires s.Valid() && Calm(s, n)
    ensures var t := Clocks(routines, s, n);
            t.pos == s.pos + n && t.encType == s.encType && t.lookup == s.lookup && t.addToLookup == s.addToLookup &&
            forall i :: 0 <= i < 63 ==>
              t.pad[i] == if s.pos <= i < s.pos + n then (s.pad[(s.pos + 62) % 63] + Total(s.pad[s.pos..i + 1])) % 256 else s.pad[i]
  {
    hide *;
    NoClocks(routines, s);
    if n > 0 {
      CalmBefore(s, n);
      PadTotals(routines, s, n - 1);
      var t := Clocks(routines, s, n - 1);
      NextTotal(s, t, n - 1);
      CalmStep(routines, t);
      ClocksNext(routines, s, n);
    }
  }

  lemma CalmBefore(s: State, n: nat)
    requires s.Valid() && n > 0 && Calm(s, n)
    ensures Calm(s, n - 1) && s.pos + n <= 62
    ensures s.pos + n == 8 ==> (s.pad[(s.pos + 62) % 63] + Total(s.pad[s.pos..s.pos + n])) % 256 / 16 % 8 != 0
  {
    hide Total;
  }

  lemma ClocksNext(routines: Routines, s: State, n: nat)
    requires s.Valid() && n > 0
    ensures Clocks(routines, s, n) == Step(routines, Clocks(routines, s, n - 1))
  {
    hide Step;
  }

  lemma CalmStep(routines: Routines, t: State)
    requires t.Valid() && t.pos < 62
    requires t.pos == 7 ==> (t.pad[t.pos] as int + t.pad[(t.pos + 62) % 63]) % 256 / 16 % 8 != 0
    ensures var u := Step(routines, t);
            u.pos == t.pos + 1 && u.pad == t.pad[t.pos := (t.pad[t.pos] as int + t.pad[(t.pos + 62) % 63]) % 256] &&
            u.encType == t.encType && u.lookup == t.lookup && u.addToLookup == t.addToLookup
  {
    hide IsMangled, IsMixed, IsNewPad16, Step, Output;
    StepOutput(routines, t);
    StepPad(routines, t);
    StepCounters(routines, t);
  }

  lemma NextTotal(s: State, t: State, n: nat)
    requires s.Valid() && t.Valid() && s.pos + n <= 62 && t.pos == s.pos + n
    requires forall i :: 0 <= i < 63 ==>
               t.pad[i] == if s.pos <= i < s.pos + n then (s.pad[(s.pos + 62) % 63] + Total(s.pad[s.pos..i + 1])) % 256 else s.pad[i]
    ensures (t.pad[t.pos] as int + t.pad[(t.pos + 62) % 63]) % 256 == (s.pad[(s.pos + 62) % 63] + Total(s.pad[s.pos..s.pos + n + 1])) % 256
  {
    hide Total;
    TotalNext(s.pad, s.pos, s.pos + n);
    var first := s.pad[(s.pos + 62) % 63];
    if n > 0 {
      DivModUnique(t.pos + 62, 63, 1, t.pos - 1);
      TotalModulo(first + Total(s.pad[s.pos..s.pos + n]), s.pad[t.pos]);
    }
  }

  lemma TotalModulo(x: int, y: int)
    ensures (y + x % 256) % 256 == (x + y) % 256
  {
  }

  /** Up to the next wrap or mangling, byte n of the output is exclusive-ored with the table's entry for that sum. */
  lemma KeystreamRun(routines: Routines, s: State, data: seq<Byte>, n: nat)
    requires s.Valid() && Calm(s, n) && n < |data|
    ensures var total := s.pad[(s.pos + 62) % 63] + Total(s.pad[s.pos..s.pos + n + 1]);
            var offset := if s.pos + n == 62 && s.encType / 8 % 2 == 1 then (s.addToLookup as int + 1) % 0x1_0000_0000 else s.addToLookup;
            Crypted(routines, s, data)[n] == Xor(data[n], s.lookup[(offset + total) % 256])
  {
    hide Step, Clocks, Crypted, Total, Output, Xor, Calm, IsMangled, IsMixed, IsNewPad16;
    CryptedAt(routines, s, data, n);
    PadTotals(routines, s, n);
    var t := Clocks(routines, s, n);
    NextTotal(s, t, n);
    StepOutput(routines, t);
    StepCounters(routines, t);
    var total := s.pad[(s.pos + 62) % 63] + Total(s.pad[s.pos..s.pos + n + 1]);
    OffsetModulo(Step(routines, t).addToLookup, total);
  }

  lemma OffsetModulo(x: int, y: int)
    ensures (x + y % 256) % 256 == (x + y) % 256
  {
  }

  /** The output of successive calls on the pieces of a message. */
  function CryptPieces(routines: Routines, s: State, pieces: seq<seq<Byte>>): (r: seq<seq<Byte>>)
    requires s.Valid()
    ensures |r| == |pieces|
    decreases |pieces|
  {
    if pieces == [] then []
    else [Crypted(routines, s, pieces[0])] + CryptPieces(routines, Clocks(routines, s, |pieces[0]|), pieces[1..])
  }

  lemma {:induction false} CryptPiecesJoined(routines: Routines, s: State, pieces: seq<seq<Byte>>)
    requires s.Valid()
    ensures Joined(CryptPieces(routines, s, pieces)) == Crypted(routines, s, Joined(pieces))
    decreases |pieces|
  {
    hide Step, Output, Xor, Crypted, Clocks;
    if pieces == [] {
      NothingCrypted(routines, s);
    } else {
      var t := Clocks(routines, s, |pieces[0]|);
      CryptPiecesJoined(routines, t, pieces[1..]);
      JoinedFirst(pieces);
      JoinedFirst(CryptPieces(routines, s, pieces));
      CryptAppend(routines, s, pieces[0], Joined(pieces[1..]));
    }
  }

  lemma NothingCrypted(routines: Routines, s: State)
    requires s.Valid()
    ensures Crypted(routines, s, []) == []
  {
  }

  /** Equal ciphers undo each other, however either side cuts the stream into calls. */
  lemma DecryptsAnySplitting(routines: Routines, s: State, plain: seq<seq<Byte>>, received: seq<seq<Byte>>)
    requires s.Valid() && Joined(received) == Joined(CryptPieces(routines, s, plain))
    ensures Joined(CryptPieces(routines, s, received)) == Joined(plain)
  {
    CryptPiecesJoined(routines, s, plain);
    CryptPiecesJoined(routines, s, received);
    CryptInverse(routines, s, Joined(plain));
  }

  // ---- Left-over words of the second pad ----

  /** Equal up to the second pad, where the encryption type does not use it. */
  predicate Alike(s: State, t: State) {
    s.(pad16 := t.pad16) == t && (HasFlag(s.encType, 0x10) ==> s.pad16 == t.pad16)
  }

  lemma {:induction false} AlikeCrypt(routines: Routines, s: State, t: State, data: seq<Byte>)
    requires s.Valid() && t.Valid() && Alike(s, t)
    ensures Crypted(routines, s, data) == Crypted(routines, t, data)
    decreases |data|
  {
    hide Step, Output, Xor, Alike;
    if data != [] {
      AlikeStep(routines, s, t);
      AlikeCrypt(routines, Step(routines, s), Step(routines, t), data[1..]);
    }
  }

  lemma AlikeStep(routines: Routines, s: State, t: State)
    requires s.Valid() && t.Valid() && Alike(s, t)
    ensures Alike(Step(routines, s), Step(routines, t)) && Output(routines, s) == Output(routines, t)
  {
    hide Mangled, MixedPad, NewPad16, SortPosition, HasFlag;
    assert RunningTotal(s) == RunningTotal(t);
    assert ClockedPad(s) == ClockedPad(t);
  }

  // ---- Initialisation, as values ----

  ghost predicate Permutation(lookup: seq<Byte>) {
    |lookup| == LOOKUP_SIZE && forall i, j :: 0 <= i < j < |lookup| ==> lookup[i] != lookup[j]
  }

  function Swapped(s: seq<Byte>, i: nat, j: nat): seq<Byte>
    requires i < |s| && j < |s|
  {
    s[i := s[j]][j := s[i]]
  }

  lemma SwapKeepsPermutation(s: seq<Byte>, i: nat, j: nat)
    requires Permutation(s) && i < |s| && j < |s|
    ensures Permutation(Swapped(s, i, j))
  {
  }

  /** calculate_num: a number below val from the next seed. */
  function NumBelow(word: Uint, val: nat): (r: nat)
    requires 0 < val <= LOOKUP_SIZE
    ensures r < val
  {
    NumBelowFits(SteppedHigh(word), val);
    SteppedHigh(word) * val / 0x10000
  }

  function SteppedHigh(word: Uint): (r: nat)
    ensures r < 0x10000
  {
    SeedStep(word) / 0x10000
  }

  lemma NumBelowFits(x: nat, val: nat)
    requires x < 0x10000 && 0 < val
    ensures 0 <= x * val && 0 <= x * val / 0x10000 < val
  {
    var p := x * val;
    assert 0 <= p < 0x10000 * val;
  }

  function Identity(): seq<Byte> {
    seq(LOOKUP_SIZE, i requires 0 <= i < LOOKUP_SIZE => i)
  }

  /** The table and the seed after n steps of the shuffle. */
  function Shuffle(word: Uint, n: nat): (r: (seq<Byte>, Uint))
    requires n <= LOOKUP_SIZE
    ensures |r.0| == LOOKUP_SIZE
  {
    if n == 0 then (Identity(), word)
    else
      var (lookup, w) := Shuffle(word, n - 1);
      (Swapped(lookup, n - 1, n - 1 + NumBelow(w, LOOKUP_SIZE - (n - 1))), SeedStep(w))
  }

  /** Every step of the shuffle exchanges an entry with a later one inside the table. */
  lemma {:induction false} ShuffleIsPermutation(word: Uint, n: nat)
    requires n <= LOOKUP_SIZE
    ensures Permutation(Shuffle(word, n).0)
  {
    hide NumBelow, SeedStep, Swapped, Identity;
    if n == 0 {
      IdentityIsPermutation();
    } else {
      ShuffleIsPermutation(word, n - 1);
      var (lookup, w) := Shuffle(word, n - 1);
      SwapKeepsPermutation(lookup, n - 1, n - 1 + NumBelow(w, LOOKUP_SIZE - (n - 1)));
    }
  }

  lemma IdentityIsPermutation()
    ensures Permutation(Identity())
  {
  }

  /** Tables after each step of the shuffle with consecutive seeds w: entry i exchanged with one not before it. */
  ghost predicate TableRun(t: seq<seq<Byte>>, w: seq<Uint>, n: nat) {
    |w| == |t| == n + 1 && |t[0]| == 256 && (forall i :: 0 <= i < 256 ==> t[0][i] == i) &&
    forall i :: 0 <= i < n ==> Exchanges(t[i], t[i + 1], w[i + 1], i)
  }

  ghost predicate Exchanges(before: seq<Byte>, after: seq<Byte>, seed: Uint, i: nat) {
    var j := i + seed / 65536 * (256 - i) / 65536;
    i <= j < |before| && after == before[i := before[j]][j := before[i]]
  }

  lemma RunsExtend(word: Uint, w: seq<Uint>, t: seq<seq<Byte>>, n: nat, seed: Uint, table: seq<Byte>)
    requires SeedRun(w, word, n) && TableRun(t, w, n)
    requires seed == (0x10dcd * w[n] as int + 0x4271) % 0x1_0000_0000 && Exchanges(t[n], table, seed, n)
    ensures SeedRun(w + [seed], word, n + 1) && TableRun(t + [table], w + [seed], n + 1)
  {
    hide Exchanges;
  }

  ghost predicate IsShuffled(word: int, lookup: seq<Byte>) {
    exists w: seq<Uint>, t: seq<seq<Byte>> {:trigger SeedRun(w, word, 256), TableRun(t, w, 256)} ::
      SeedRun(w, word, 256) && TableRun(t, w, 256) && lookup == t[256]
  }

  lemma {:induction false} ShuffleRun(word: Uint, n: nat) returns (w: seq<Uint>, t: seq<seq<Byte>>)
    requires n <= 256
    ensures SeedRun(w, word, n) && TableRun(t, w, n) && Shuffle(word, n) == (t[n], w[n])
  {
    hide NumBelow, SeedStep, Identity, Swapped, Exchanges, Shuffle;
    ShuffleUnfold(word, n);
    if n == 0 {
      w, t := [word], [Identity()];
      IdentityAt();
    } else {
      w, t := ShuffleRun(word, n - 1);
      var seed := w[n - 1];
      var table := Swapped(t[n - 1], n - 1, n - 1 + NumBelow(seed, 256 - (n - 1)));
      SwapExchanges(t[n - 1], n - 1, seed);
      SeedStepIs(seed);
      RunsExtend(word, w, t, n - 1, SeedStep(seed), table);
      w, t := w + [SeedStep(seed)], t + [table];
    }
  }

  lemma SwapExchanges(s: seq<Byte>, i: nat, seed: Uint)
    requires |s| == 256 && i < 256
    ensures Exchanges(s, Swapped(s, i, i + NumBelow(seed, 256 - i)), SeedStep(seed), i)
  {
    hide NumBelow, SeedStep;
    NumBelowIs(seed, 256 - i);
  }

  lemma IsShuffledTable(word: Uint)
    ensures IsShuffled(word, Shuffle(word, 256).0)
  {
    hide SeedRun, TableRun, Shuffle;
    var w, t := ShuffleRun(word, 256);
  }

  lemma ShuffleUnfold(word: Uint, n: nat)
    requires n <= 256
    ensures n == 0 ==> Shuffle(word, n) == (Identity(), word)
    ensures n > 0 ==> var (lookup, w) := Shuffle(word, n - 1);
              Shuffle(word, n) == (Swapped(lookup, n - 1, n - 1 + NumBelow(w, 256 - (n - 1))), SeedStep(w))
  {
    hide NumBelow, SeedStep, Identity, Swapped;
  }

  lemma IdentityAt()
    ensures |Identity()| == 256 && forall i :: 0 <= i < 256 ==> Identity()[i] == i
  {
  }

  lemma NumBelowIs(word: Uint, val: nat)
    requires 0 < val <= 256
    ensures NumBelow(word, val) == SeedStep(word) / 65536 * val / 65536
  {
    hide SeedStep;
  }

  lemma SeedStepIs(seed: Uint)
    ensures SeedStep(seed) == (0x10dcd * seed as int + 0x4271) % 0x1_0000_0000
  {
  }

  lemma SwappedIs(s: seq<Byte>, i: nat, j: nat)
    requires i < |s| && j < |s|
    ensures Swapped(s, i, j) == s[i := s[j]][j := s[i]]
  {
  }

  /** The first entry is final after one exchange: the high byte of the first seed. */
  lemma FirstEntry(word: Uint, lookup: seq<Byte>)
    requires IsShuffled(word, lookup)
    ensures lookup != [] && lookup[0] == (0x10dcd * word as int + 0x4271) % 0x1_0000_0000 / 65536 / 256
  {
    hide Exchanges;
    var w, t :| SeedRun(w, word, 256) && TableRun(t, w, 256) && lookup == t[256];
    FirstStays(t, w, 256);
  }

  lemma {:induction false} FirstStays(t: seq<seq<Byte>>, w: seq<Uint>, n: nat)
    requires 0 < n <= 256 && TableRun(t, w, n)
    ensures t[n] != [] && t[n][0] == w[1] / 65536 / 256
  {
    if n == 1 {
      assert Exchanges(t[0], t[1], w[1], 0);
      HighByte(w[1]);
    } else {
      hide Exchanges;
      FrontRun(t, w, n);
      FirstStays(t[..n], w[..n], n - 1);
      FirstKept(t[n - 1], t[n], w[n], n - 1);
    }
  }

  lemma FrontRun(t: seq<seq<Byte>>, w: seq<Uint>, n: nat)
    requires 0 < n && TableRun(t, w, n)
    ensures TableRun(t[..n], w[..n], n - 1) && Exchanges(t[n - 1], t[n], w[n], n - 1)
  {
    hide Exchanges;
  }

  lemma FirstKept(before: seq<Byte>, after: seq<Byte>, seed: Uint, i: nat)
    requires 0 < i && before != [] && Exchanges(before, after, seed, i)
    ensures after != [] && after[0] == before[0]
  {
  }

  lemma EntryOf0x10000(lookup: seq<Byte>)
    requires IsShuffled(0x10000, lookup)
    ensures lookup != [] && lookup[0] == 13
  {
    FirstEntry(0x10000, lookup);
  }

  lemma HighByte(x: nat)
    ensures x / 65536 * 256 / 65536 == x / 65536 / 256
  {
  }

  /** Some byte of the first n is odd. */  /** Some byte of the first n is odd. */
  predicate AnyOdd(pad: Pad, n: nat)
    requires n <= PAD_SIZE
  {
    exists i :: 0 <= i < n && pad[i] % 2 == 1
  }

  function AdjustedPad(pad: Pad): Pad {
    if AnyOdd(pad, PAD_SIZE) then pad else pad[0 := Or(pad[0], 0x71)]
  }

  function StartPosition(seed: Uint): (pos: nat)
    ensures pos < PAD_SIZE
  {
    var temp := SteppedHigh(seed);
    (temp * 64 - temp) / 0x10000
  }

  datatype InitResult = Ready(state: State) | Unsupported

  function Initialised(routines: Routines, seed: Uint, encType: Uint, pad16: Pad16): InitResult {
    match routines.padInit(seed, encType)
    case NotSupported => Unsupported
    case PadReady(raw, next) =>
      var pad := AdjustedPad(raw);
      var pos := StartPosition(next);
      Ready(State(encType, pos, 0, 0, Mangled(pad, SortPosition(pos)),
                  if HasFlag(encType, 0x08) then Shuffle(routines.md5Word(pad), LOOKUP_SIZE).0 else Identity(),
                  if HasFlag(encType, 0x10) then NewPad16(routines, pos) else pad16))
  }

  /** The pad as the mixers leave it, its first byte changed when all bytes are even. */
  ghost predicate IsAdjusted(raw: Pad, pad: Pad) {
    pad == if exists i :: 0 <= i < 63 && raw[i] % 2 == 1 then raw else raw[0 := Or(raw[0], 0x71)]
  }

  /** The position is chosen by the high half of the next seed. */
  ghost predicate IsStart(next: Uint, pos: int) {
    pos == (0x10dcd * next as int + 0x4271) % 0x1_0000_0000 / 65536 * 63 / 65536
  }

  /** Where a cipher starts, given the adjusted pad and the seed the mixers leave. */
  ghost predicate Starts(routines: Routines, pad: Pad, next: Uint, encType: Uint, left: Pad16, s: State) {
    s.encType == encType && s.wrapcount == 0 && s.addToLookup == 0 &&
    IsStart(next, s.pos) && IsMangled(pad, (s.pos * s.pos + 2) % 59, s.pad) &&
    (if encType / 8 % 2 == 1 then IsShuffled(routines.md5Word(pad), s.lookup)
     else |s.lookup| == 256 && forall i :: 0 <= i < 256 ==> s.lookup[i] == i) &&
    if encType / 16 % 2 == 1 then IsNewPad16(routines, s.pos, s.pad16) else s.pad16 == left
  }

  lemma InitialisedStarts(routines: Routines, seed: Uint, encType: Uint, left: Pad16)
    requires routines.padInit(seed, encType).PadReady?
    ensures Initialised(routines, seed, encType, left).Ready?
    ensures exists pad: Pad {:trigger IsAdjusted(routines.padInit(seed, encType).pad, pad)} ::
              IsAdjusted(routines.padInit(seed, encType).pad, pad) &&
              Starts(routines, pad, routines.padInit(seed, encType).seed, encType, left, Initialised(routines, seed, encType, left).state)
  {
    hide IsAdjusted, Starts, AdjustedPad;
    AdjustedPadIs(routines.padInit(seed, encType).pad);
    InitialisedFrom(routines, seed, encType, left);
  }

  lemma InitialisedFrom(routines: Routines, seed: Uint, encType: Uint, left: Pad16)
    requires routines.padInit(seed, encType).PadReady?
    ensures Initialised(routines, seed, encType, left).Ready?
    ensures Starts(routines, AdjustedPad(routines.padInit(seed, encType).pad), routines.padInit(seed, encType).seed, encType, left,
                   Initialised(routines, seed, encType, left).state)
  {
    hide *;
    InitialisedFields(routines, seed, encType, left);
    var s := Initialised(routines, seed, encType, left).state;
    var pad, next := AdjustedPad(routines.padInit(seed, encType).pad), routines.padInit(seed, encType).seed;
    StartPositionIs(next);
    MangledAt(pad, s.pos);
    IsShuffledTable(routines.md5Word(pad));
    IdentityAt();
    NewPad16Is(routines, StartPosition(next));
    StartsFrom(routines, pad, next, encType, left, s);
  }

  lemma StartsFrom(routines: Routines, pad: Pad, next: Uint, encType: Uint, left: Pad16, s: State)
    requires s.encType == encType && s.wrapcount == s.addToLookup == 0 && IsStart(next, s.pos)
    requires IsMangled(pad, (s.pos * s.pos + 2) % 59, s.pad)
    requires if encType / 8 % 2 == 1 then IsShuffled(routines.md5Word(pad), s.lookup)
             else |s.lookup| == 256 && forall i :: 0 <= i < 256 ==> s.lookup[i] == i
    requires if encType / 16 % 2 == 1 then IsNewPad16(routines, s.pos, s.pad16) else s.pad16 == left
    ensures Starts(routines, pad, next, encType, left, s)
  {
    hide IsStart, IsMangled, IsShuffled, IsNewPad16;
  }

  lemma InitialisedFields(routines: Routines, seed: Uint, encType: Uint, left: Pad16)
    requires routines.padInit(seed, encType).PadReady?
    ensures Initialised(routines, seed, encType, left).Ready?
    ensures var s := Initialised(routines, seed, encType, left).state;
            var pad, pos := AdjustedPad(routines.padInit(seed, encType).pad), StartPosition(routines.padInit(seed, encType).seed);
            s.encType == encType && s.wrapcount == s.addToLookup == 0 && s.pos == pos && s.pad == Mangled(pad, SortPosition(pos)) &&
            s.lookup == (if encType / 8 % 2 == 1 then Shuffle(routines.md5Word(pad), 256).0 else Identity()) &&
            s.pad16 == if encType / 16 % 2 == 1 then NewPad16(routines, pos) else left
  {
    hide Mangled, SortPosition, Shuffle, Identity, NewPad16, StartPosition, AdjustedPad;
  }

  lemma AdjustedPadIs(raw: Pad)
    ensures IsAdjusted(raw, AdjustedPad(raw))
  {
    hide Or;
  }

  lemma StartPositionIs(seed: Uint)
    ensures IsStart(seed, StartPosition(seed)) && StartPosition(seed) < 63
  {
    SeedStepIs(seed);
    hide SeedStep;
  }

  /** After n clocks from a successful initialisation. */
  lemma InitialisedRun(routines: Routines, seed: Uint, encType: Uint, pad16: Pad16, n: nat)
    requires Initialised(routines, seed, encType, pad16).Ready?
    ensures var s := Initialised(routines, seed, encType, pad16).state;
            s.Valid() && var t := Clocks(routines, s, n);
            t.pos == (s.pos + n) % PAD_SIZE && t.wrapcount == (s.pos + n) / PAD_SIZE % UINT_MODULUS && Permutation(t.lookup) &&
            t.addToLookup == if HasFlag(encType, 0x08) then t.wrapcount else 0
  {
    hide Mangled, Clocks, Step, Shuffle, Permutation, NewPad16, Identity, StartPosition;
    var s := Initialised(routines, seed, encType, pad16).state;
    if HasFlag(encType, 0x08) {
      ShuffleIsPermutation(routines.md5Word(AdjustedPad(routines.padInit(seed, encType).pad)), LOOKUP_SIZE);
    } else {
      IdentityIsPermutation();
    }
    PermutationSize(s.lookup);
    ClocksCount(routines, s, n);
    LookupOffset(routines, s, n);
  }

  lemma PermutationSize(lookup: seq<Byte>)
    requires Permutation(lookup)
    ensures |lookup| == LOOKUP_SIZE
  {
  }

  lemma InitialisedAlike(routines: Routines, seed: Uint, encType: Uint, mine: Pad16, theirs: Pad16)
    requires Initialised(routines, seed, encType, mine).Ready? && Initialised(routines, seed, encType, theirs).Ready?
    ensures Alike(Initialised(routines, seed, encType, mine).state, Initialised(routines, seed, encType, theirs).state)
  {
    hide Mangled, Shuffle, NewPad16, Identity, StartPosition, AdjustedPad;
  }

  /** Two ciphers initialised with the same seed and type undo each other, whatever was left in them before
      and however either side cuts the stream. */
  lemma InitialisedPair(routines: Routines, seed: Uint, encType: Uint, mine: Pad16, theirs: Pad16,
                        plain: seq<seq<Byte>>, received: seq<seq<Byte>>)
    requires Initialised(routines, seed, encType, mine).Ready? && Initialised(routines, seed, encType, theirs).Ready?
    ensures var s, t := Initialised(routines, seed, encType, mine).state, Initialised(routines, seed, encType, theirs).state;
            s.Valid() && t.Valid() &&
            (Joined(received) == Joined(CryptPieces(routines, s, plain)) ==> Joined(CryptPieces(routines, t, received)) == Joined(plain))
  {
    hide Mangled, Clocks, Step, Shuffle, Permutation, NewPad16, Identity, StartPosition, Crypted, CryptPieces, Joined;
    var s, t := Initialised(routines, seed, encType, mine).state, Initialised(routines, seed, encType, theirs).state;
    InitialisedRun(routines, seed, encType, mine, 0);
    InitialisedRun(routines, seed, encType, theirs, 0);
    CryptPiecesJoined(routines, s, plain);
    CryptPiecesJoined(routines, t, received);
    AlikeCrypt(routines, s, t, Joined(received));
    CryptInverse(routines, s, Joined(plain));
  }

  // ---- The cipher object ----

  class FSTCipher {
    const routines: Routines
    var encType: Uint
    var seed: Uint
    var pos: nat
    var wrapcount: Uint
    var addToLookup: Uint
    const pad: array<Byte>
    const lookup: array<Byte>
    const pad16: array<Uint>

    ghost predicate Allocated() {
      pad.Length == PAD_SIZE && lookup.Length == LOOKUP_SIZE && pad16.Length == PAD16_SIZE && pad != lookup
    }

    ghost predicate Valid()
      reads this
    {
      Allocated() && pos < PAD_SIZE
    }

    /** The fields as a value. */
    ghost function View(): State
      requires Allocated()
      reads this, pad, lookup, pad16
    {
      State(encType, pos, wrapcount, addToLookup, pad[..], lookup[..], pad16[..])
    }

    constructor (routines: Routines)
      ensures Valid() && this.routines == routines && fresh(pad) && fresh(lookup) && fresh(pad16)
    {
      this.routines := routines;
      encType, seed, pos, wrapcount, addToLookup := 0, 0, 0, 0, 0;
      pad := new Byte[PAD_SIZE](_ => 0);
      lookup := new Byte[LOOKUP_SIZE](_ => 0);
      pad16 := new Uint[PAD16_SIZE](_ => 0);
    }

    /** The library sort of five bytes, by insertion; by SortedUnique any other way gives the same pad. */
    method Qsort(at: nat)
      requires Allocated() && at + 5 <= PAD_SIZE
      modifies pad
      ensures pad[..] == SortedPad(old(pad[..]), at)
    {
      Memcpy(pad, at, Sort(pad[at..at + 5]));
    }

    method ModifyThirdBytes()
      requires Allocated()
      modifies pad
      ensures pad[..] == ThirdBytesTo(old(pad[..]), PAD_SIZE)
    {
      hide Or, ThirdBytesTo;
      ghost var before := pad[..];
      ThirdEnds(before);
      var i := 5;
      while i < PAD_SIZE
        invariant 5 <= i <= PAD_SIZE + 2 && i % 3 == 2
        invariant pad[..] == ThirdBytesTo(before, i)
      {
        ThirdNext(before, i);
        pad[i] := Or(Add8(255 - pad[i], i), 1);
        i := i + 3;
      }
    }

    /** Twenty seeds after the given one, then mixed. */
    method FillPad16(start: Uint)
      requires Allocated()
      modifies pad16
      ensures pad16[..] == NewPad16(routines, start)
    {
      var seed := start;
      SeedsUnfold(start, 0);
      for i := 0 to PAD16_SIZE
        invariant pad16[..i] == Seeds(start, i) && seed == LastSeed(start, i)
      {
        SeedsExtend(start, i);
        seed := SeedStep(seed);
        pad16[i] := seed;
      }
      SeedsExtend(start, PAD16_SIZE);
      assert pad16[..] == pad16[..PAD16_SIZE];
      seed := SeedStep(seed);
      var mixed := routines.encType2(pad16[..], seed);
      forall i | 0 <= i < PAD16_SIZE {
        pad16[i] := mixed[i];
      }
    }

    /** Or of all bytes of the pad decides whether the first one is changed. */
    method AdjustPad()
      requires Allocated()
      modifies pad
      ensures pad[..] == AdjustedPad(old(pad[..]))
    {
      hide Or;
      ghost var before := pad[..];
      var c := 0;
      for i := 0 to PAD_SIZE
        invariant pad[..] == before && (c % 2 == 1 <==> AnyOdd(before, i))
      {
        OrParity(c, pad[i]);
        c := Or(c, pad[i]);
      }
      if c % 2 == 0 {
        pad[0] := Or(pad[0], 0x71);
      }
    }

    method InitLookup()
      requires Allocated()
      modifies lookup
      ensures lookup[..] == Identity()
    {
      for i := 0 to LOOKUP_SIZE
        invariant forall k :: 0 <= k < i ==> lookup[k] == k
      {
        lookup[i] := i;
      }
    }

    method ShuffleLookup(word: Uint)
      requires Allocated() && lookup[..] == Identity()
      modifies lookup
      ensures lookup[..] == Shuffle(word, LOOKUP_SIZE).0
    {
      hide NumBelow, SeedStep, Identity;
      var num := word;
      for i := 0 to LOOKUP_SIZE
        invariant Shuffle(word, i) == (lookup[..], num)
      {
        var j := NumBelow(num, LOOKUP_SIZE - i) + i;
        num := SeedStep(num);
        if j != i {
          var a, b := lookup[j], lookup[i];
          lookup[i] := a;
          lookup[j] := b;
        }
        assert lookup[..] == Swapped(Shuffle(word, i).0, i, j);
      }
    }

    method Init(seed0: Uint, encType: Uint) returns (ok: bool)
      requires Allocated()
      modifies this`encType, this`seed, this`pos, this`wrapcount, this`addToLookup, pad, lookup, pad16
      ensures ok == Initialised(routines, seed0, encType, old(pad16[..])).Ready?
      ensures ok ==> Valid() && View() == Initialised(routines, seed0, encType, old(pad16[..])).state
      ensures ok == routines.padInit(seed0, encType).PadReady?
      ensures ok ==> exists adjusted: Pad {:trigger IsAdjusted(routines.padInit(seed0, encType).pad, adjusted)} ::
                IsAdjusted(routines.padInit(seed0, encType).pad, adjusted) &&
                Starts(routines, adjusted, routines.padInit(seed0, encType).seed, encType, old(pad16[..]), View())
    {
      hide AdjustedPad, Mangled, Shuffle, Identity, NewPad16, SortedPad, ThirdBytesTo, HasFlag, StartPosition, Starts, IsAdjusted;
      ghost var left := pad16[..];
      if routines.padInit(seed0, encType).PadReady? { InitialisedStarts(routines, seed0, encType, left); }
      this.encType, wrapcount, addToLookup, this.seed := encType, 0, 0, seed0;
      var padResult := routines.padInit(seed0, encType);
      if padResult.NotSupported? {
        return false;
      }
      Memcpy(pad, 0, padResult.pad);
      assert pad[..] == padResult.pad;
      AdjustPad();
      pos := StartPosition(padResult.seed);
      InitLookup();
      if HasFlag(encType, 0x08) {
        ShuffleLookup(routines.md5Word(pad[..]));
      }
      if HasFlag(encType, 0x10) {
        FillPad16(pos);
      }
      MangledIs(pad[..], SortPosition(pos));
      Qsort(SortPosition(pos));
      ModifyThirdBytes();
      return true;
    }

    method MixPad()
      requires Allocated()
      modifies pad
      ensures pad[..] == MixedPad(old(pad[..]), pad16[..])
    {
      hide Xor, Or;
      ghost var before := pad[..];
      var shift := Pow2(pad[0x18] % 16);
      var offset := pad[0x19] % 32;
      for i := 0 to 6
        invariant pad[..] == MixedTo(before, pad16[..], i)
      {
        MixNext(before, pad16[..], i, shift);
        pad[offset + i] := Xor(pad[offset + i], Add8(pad16[i] / shift, 0));
      }
      pad[offset + 4] := Or(pad[offset + 4], Pow2(pad[0x0A] % 8));
    }

    /** One keystream byte, and the next state. */
    method Clock() returns (xor: Byte)
      requires Valid()
      modifies this`pos, this`wrapcount, this`addToLookup, pad, pad16
      ensures Valid() && View() == Step(routines, old(View()))
      ensures xor == Output(routines, old(View()))
      ensures pos == (old(pos) + 1) % 63
      ensures xor == lookup[(addToLookup + (old(pad[pos]) as int + old(pad[(pos + 62) % 63])) % 256) % 256]
      ensures var total := (old(pad[pos]) as int + old(pad[(pos + 62) % 63])) % 256;
              var summed := old(pad[..])[old(pos) := total];
              if old(pos) == 7 && total / 16 % 8 == 0 then var x := total + summed[2]; IsMangled(summed, (x * x + 2) % 59, pad[..])
              else if old(pos) == 62 && encType / 16 % 2 == 1 then IsMixed(summed, old(pad16[..]), pad[..])
              else pad[..] == summed
      ensures wrapcount == if old(pos) == 62 then (old(wrapcount) as int + 1) % 0x1_0000_0000 else old(wrapcount)
      ensures addToLookup == if old(pos) == 62 && encType / 8 % 2 == 1 then (old(addToLookup) as int + 1) % 0x1_0000_0000
                             else old(addToLookup)
      ensures if old(pos) == 62 && encType / 16 % 2 == 1 && wrapcount % 16 == 0 then IsNewPad16(routines, wrapcount, pad16[..])
              else pad16[..] == old(pad16[..])
    {
      hide Step, Output, IsMangled, IsMixed, IsNewPad16;
      ghost var s := View();
      StepOutput(routines, s);
      StepPad(routines, s);
      StepCounters(routines, s);
      xor := ClockOnce();
    }

    /** The clock, as the step of the state. */
    method ClockOnce() returns (xor: Byte)
      requires Valid()
      modifies this`pos, this`wrapcount, this`addToLookup, pad, pad16
      ensures Valid() && View() == Step(routines, old(View()))
      ensures xor == Output(routines, old(View()))
    {
      hide Mangled, MixedPad, NewPad16, SortedPad, ThirdBytesTo, HasFlag, SortPosition;
      ghost var s := View();
      var lastpos := if pos > 0 then pos - 1 else PAD_SIZE - 1;
      pad[pos] := Add8(pad[pos], pad[lastpos]);
      xor := pad[pos];
      if pos == 7 && xor / 16 % 8 == 0 {
        var sortpos := SortPosition(xor + pad[2]);
        MangledIs(pad[..], sortpos);
        Qsort(sortpos);
        ModifyThirdBytes();
      }
      assert pad[..] == ClockedPad(s);
      pos := pos + 1;
      if pos == PAD_SIZE {
        WrapAround();
      }
      xor := lookup[Add8(addToLookup, xor)];
    }

    method WrapAround()
      requires Allocated() && pos == PAD_SIZE
      modifies this`pos, this`wrapcount, this`addToLookup, pad, pad16
      ensures Valid() && View() == Wrapped(routines, old(View()))
    {
      hide MixedPad, NewPad16, HasFlag;
      pos := 0;
      wrapcount := (wrapcount + 1) % UINT_MODULUS;
      if HasFlag(encType, 0x08) {
        addToLookup := (addToLookup + 1) % UINT_MODULUS;
      }
      if HasFlag(encType, 0x10) {
        MixPad();
        if wrapcount % 16 == 0 {
          FillPad16(wrapcount);
        }
      }
    }

    /** Encrypts or decrypts in place. */
    method Crypt(data: array<Byte>)
      requires Valid() && data != pad && data != lookup
      modifies this`pos, this`wrapcount, this`addToLookup, pad, pad16, data
      ensures Valid() && View() == Clocks(routines, old(View()), data.Length)
      ensures data[..] == Crypted(routines, old(View()), old(data[..]))
    {
      hide Step, Output, Xor, IsMangled, IsMixed, IsNewPad16;
      ghost var s, plain := View(), data[..];
      var i := 0;
      assert plain[..0] == [];
      while i < data.Length
        invariant 0 <= i <= data.Length && Valid() && View() == Clocks(routines, s, i)
        invariant data[..i] == Crypted(routines, s, plain[..i]) && data[i..] == plain[i..]
      {
        var key := Clock();
        CryptNext(routines, s, plain, i);
        data[i] := Xor(data[i], key);
        i := i + 1;
      }
      assert plain[..data.Length] == plain && data[..data.Length] == data[..];
    }
  }

  lemma OrParity(a: Byte, b: Byte)
    ensures Or(a, b) % 2 == 1 <==> a % 2 == 1 || b % 2 == 1
  {
    BitOrLow(a, b);
    hide BitOr;
  }

  lemma ThirdNext(pad: Pad, i: nat)
    requires 5 <= i < PAD_SIZE && i % 3 == 2
    ensures ThirdBytesTo(pad, i)[i] == pad[i]
    ensures ThirdBytesTo(pad, i + 3) == ThirdBytesTo(pad, i)[i := Or(Add8(255 - pad[i], i), 1)]
  {
    hide Or, Add8;
  }

  lemma ThirdEnds(pad: Pad)
    ensures ThirdBytesTo(pad, 5) == pad && ThirdBytesTo(pad, PAD_SIZE + 2) == ThirdBytesTo(pad, PAD_SIZE)
  {
  }

  lemma MixNext(pad: Pad, pad16: Pad16, i: nat, shift: nat)
    requires i < 6 && shift == Pow2(pad[0x18] % 16)
    ensures var at := pad[0x19] % 32 + i;
            MixedTo(pad, pad16, i)[at] == pad[at] &&
            MixedTo(pad, pad16, i + 1) == MixedTo(pad, pad16, i)[at := Xor(pad[at], pad16[i] / shift % 256)]
  {
  }

  lemma CryptNext(routines: Routines, s: State, data: seq<Byte>, i: nat)
    requires s.Valid() && i < |data|
    ensures Crypted(routines, s, data[..i + 1]) == Crypted(routines, s, data[..i]) + [Xor(data[i], Output(routines, Clocks(routines, s, i)))]
  {
    hide Step, Output, Xor;
    assert data[..i + 1] == data[..i] + [data[i]];
    CryptAppend(routines, s, data[..i], [data[i]]);
    var t := Clocks(routines, s, i);
    assert Crypted(routines, t, [data[i]]) == [Xor(data[i], Output(routines, t))] + Crypted(routines, Step(routines, t), []);
  }

  // ---- The encryption type itself ----

  /** fst_cipher_mangle_enc_type. */
  function MangleEncType(routines: Routines, seed: Uint, encType: Uint): Uint {
    assert Pow2(32) == UINT_MODULUS by { PowerOf32(); }
    XorBits(encType, NewPad16(routines, seed)[7], 32)
  }

  lemma PowerOf32()
    ensures Pow2(32) == UINT_MODULUS
  {
    assert Pow2(8) == 256;
    assert Pow2(16) == 65536;
    assert Pow2(24) == 0x100_0000;
  }

  /** Mangling twice with the same seed restores the type. */
  lemma MangleTwice(routines: Routines, seed: Uint, encType: Uint)
    ensures MangleEncType(routines, seed, MangleEncType(routines, seed, encType)) == encType
  {
    PowerOf32();
    XorTwice(encType, NewPad16(routines, seed)[7], 32);
  }

  /** The type exclusive-ored with the eighth of twenty mixed seeds. */
  lemma MangleEncTypeIs(routines: Routines, seed: Uint, encType: Uint)
    ensures exists key80: Pad16 {:trigger IsNewPad16(routines, seed, key80)} :: IsNewPad16(routines, seed, key80) &&
              forall i: nat {:trigger Shr(encType, i)} :: i < 32 ==>
                Shr(MangleEncType(routines, seed, encType), i) % 2 == (Shr(encType, i) + Shr(key80[7], i)) % 2
  {
    hide Shr, XorBits, IsNewPad16, NewPad16;
    var key80 := NewPad16(routines, seed);
    NewPad16Is(routines, seed);
    forall i: nat | i < 32 ensures Shr(MangleEncType(routines, seed, encType), i) % 2 == (Shr(encType, i) + Shr(key80[7], i)) % 2 {
      XorBitsAt(encType, key80[7], 32, i);
    }
  }

  method FstCipherMangleEncType(routines: Routines, start: Uint, encType: Uint) returns (mangled: Uint)
    ensures mangled == MangleEncType(routines, start, encType)
    ensures exists key80: Pad16 {:trigger IsNewPad16(routines, start, key80)} :: IsNewPad16(routines, start, key80) &&
              forall i: nat {:trigger Shr(encType, i)} :: i < 32 ==>
                Shr(mangled, i) % 2 == (Shr(encType, i) + Shr(key80[7], i)) % 2
  {
    hide Shr, XorBits, IsNewPad16;
    var seed := start;
    var key80 := new Uint[20](_ => 0);
    SeedsUnfold(start, 0);
    for i := 0 to 20
      invariant key80[..i] == Seeds(start, i) && seed == LastSeed(start, i)
    {
      SeedsExtend(start, i);
      seed := SeedStep(seed);
      key80[i] := seed;
    }
    SeedsExtend(start, 20);
    assert key80[..] == key80[..20];
    seed := SeedStep(seed);
    var mixed := routines.encType2(key80[..], seed);
    PowerOf32();
    mangled := XorBits(encType, mixed[7], 32);
    MangleEncTypeIs(routines, start, encType);
  }

  // ---- Two ciphers ----

  /** Successive calls of Crypt on the pieces of a stream. */
  method CryptStream(cipher: FSTCipher, pieces: seq<seq<Byte>>) returns (out: seq<Byte>)
    requires cipher.Valid()
    modifies cipher`pos, cipher`wrapcount, cipher`addToLookup, cipher.pad, cipher.pad16
    ensures cipher.Valid() && out == Crypted(cipher.routines, old(cipher.View()), Joined(pieces))
    ensures cipher.View() == Clocks(cipher.routines, old(cipher.View()), |Joined(pieces)|)
  {
    hide Crypted, Clocks, Joined;
    ghost var s := cipher.View();
    out := [];
    NothingCrypted(cipher.routines, s);
    NoClocks(cipher.routines, s);
    JoinedNothing(pieces);
    for i := 0 to |pieces|
      invariant cipher.Valid() && out == Crypted(cipher.routines, s, Joined(pieces[..i]))
      invariant cipher.View() == Clocks(cipher.routines, s, |Joined(pieces[..i])|)
    {
      JoinedNext(pieces, i);
      CryptAppend(cipher.routines, s, Joined(pieces[..i]), pieces[i]);
      ClocksAdd(cipher.routines, s, |Joined(pieces[..i])|, |pieces[i]|);
      var piece := pieces[i];
      var data := new Byte[|piece|](k requires 0 <= k < |piece| => piece[k]);
      assert data[..] == piece;
      cipher.Crypt(data);
      out := out + data[..];
    }
    assert pieces[..|pieces|] == pieces;
  }

  /** Two cipher objects, whatever was left in them, given the same seed and type: either the type is refused for both,
      or the second one gives back what the first one was sent, however either side cuts the stream. */
  method InitThenCrypt(mine: FSTCipher, theirs: FSTCipher, seed: Uint, encType: Uint, pieces: seq<seq<Byte>>,
                       recut: seq<Byte> -> seq<seq<Byte>>) returns (ok: bool, data: seq<Byte>)
    requires mine.Allocated() && theirs.Allocated() && mine != theirs && mine.routines == theirs.routines
    requires {mine.pad, mine.lookup} !! {theirs.pad, theirs.lookup} && mine.pad16 != theirs.pad16
    requires forall text {:trigger recut(text)} :: Joined(recut(text)) == text
    modifies mine, theirs, mine.pad, mine.lookup, mine.pad16, theirs.pad, theirs.lookup, theirs.pad16
    ensures ok == !mine.routines.padInit(seed, encType).NotSupported?
    ensures ok ==> data == Joined(pieces)
  {
    hide Crypted, Clocks, Joined, Initialised;
    data := [];
    ghost var left, left' := mine.pad16[..], theirs.pad16[..];
    SameSupport(mine.routines, seed, encType, left, left');
    ok := mine.Init(seed, encType);
    var ok' := theirs.Init(seed, encType);
    if ok {
      ghost var s, t := mine.View(), theirs.View();
      var sent := CryptStream(mine, pieces);
      data := CryptStream(theirs, recut(sent));
      InitialisedAlike(mine.routines, seed, encType, left, left');
      AlikeCrypt(mine.routines, s, t, sent);
      CryptInverse(mine.routines, s, Joined(pieces));
    }
  }

  lemma SameSupport(routines: Routines, seed: Uint, encType: Uint, mine: Pad16, theirs: Pad16)
    ensures var supported := !routines.padInit(seed, encType).NotSupported?;
            Initialised(routines, seed, encType, mine).Ready? == supported == Initialised(routines, seed, encType, theirs).Ready?
  {
  }
}
