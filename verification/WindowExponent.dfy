/** Sliding windows over exponents, and the simultaneous multiplication that collects them in buckets. */
module WindowExponent {
  import opened Integers
  import opened Words
  import opened Groups

  // ---- Bits of an exponent ----

  predicate GetBit(x: nat, n: nat) {
    x / Pow2(n) % 2 == 1
  }

  function WordCount(x: nat): (n: nat)
    ensures x < Scale(n)
  {
    BaseAtLeast256();
    if x == 0 then 0 else DivSmaller(x, BASE); DivBelow(x, BASE, Scale(WordCount(x / BASE))); 1 + WordCount(x / BASE)
  }

  lemma DivSmaller(x: nat, base: nat)
    requires 1 < base && 0 < x
    ensures 0 <= x / base < x
  {
    var q := x / base;
    assert x == q * base + x % base;
    if q > 0 { MulMonotone(2, base, q); MulComm(2, q); MulComm(base, q); }
  }

  lemma DivBelow(x: nat, base: nat, scale: nat)
    requires 1 < base && x / base < scale
    ensures x < base * scale
  {
    assert x == x / base * base + x % base;
    MulMonotone(x / base + 1, scale, base);
    MulComm(scale, base);
  }

  function BitCount(x: nat): nat {
    if x == 0 then 0 else 1 + BitCount(x / 2)
  }

  lemma DivPow2Next(x: nat, n: nat)
    ensures x / Pow2(n + 1) == x / Pow2(n) / 2
    ensures x / Pow2(n) == 2 * (x / Pow2(n + 1)) + (if GetBit(x, n) then 1 else 0)
  {
    var p := Pow2(n);
    QuotientSplit(x, p);
    NextDigit(x, p, x / p, x / p / 2, x / p % 2, x % p);
  }

  lemma NextDigit(x: nat, p: nat, q: nat, h: nat, bit: nat, rest: nat)
    requires 0 < p && x == q * p + rest && rest < p && q == 2 * h + bit && bit <= 1
    ensures x / (2 * p) == h
  {
    AddMul(2 * h, bit, p);
    DoubleFactor(h, p);
    MulMonotone(0, bit, p);
    MulMonotone(bit, 1, p);
    DivModUnique(x, 2 * p, h, bit * p + rest);
  }

  lemma DoubleFactor(h: int, p: int)
    ensures 2 * h * p == h * (2 * p)
  {
  }

  lemma {:induction false} BitCountBelow(x: nat, n: nat)
    ensures BitCount(x) <= n <==> x < Pow2(n)
  {
    if n > 0 && x > 0 { BitCountBelow(x / 2, n - 1); }
  }

  /** The default window size, by powers of two. */
  lemma SizeByLength(x: nat)
    ensures WindowSizeFor(BitCount(x)) == if x < Pow2(17) then 1 else if x < Pow2(24) then 2 else if x < Pow2(70) then 3
              else if x < Pow2(197) then 4 else if x < Pow2(539) then 5 else if x < Pow2(1434) then 6 else 7
  {
    hide Pow2, BitCount;
    BitCountBelow(x, 17);
    BitCountBelow(x, 24);
    BitCountBelow(x, 70);
    BitCountBelow(x, 197);
    BitCountBelow(x, 539);
    BitCountBelow(x, 1434);
  }

  // ---- One exponent cut into windows ----

  /** The signed digit of a window beginning at the given bit. */
  ghost function DigitAt(window: int, negate: bool, begin: nat): int {
    Signed(window, negate) * Pow2(begin)
  }

  /** x without its low bits, weighted by the bit x begins at. */
  ghost function RestAt(x: nat, taken: nat, begin: nat): (r: nat) {
    NatProduct(Masked(x, taken), Pow2(begin));
    Masked(x, taken) * Pow2(begin)
  }

  ghost function LimitAt(x: nat, taken: nat, w: nat, begin: nat): (r: nat) {
    NatProduct(w, Shr(x, taken));
    begin + w * Shr(x, taken)
  }

  function WindowSizeFor(expLen: nat): (w: nat)
    ensures 1 <= w <= 7
  {
    if expLen <= 17 then 1 else if expLen <= 24 then 2 else if expLen <= 70 then 3
    else if expLen <= 197 then 4 else if expLen <= 539 then 5 else if expLen <= 1434 then 6 else 7
  }

  function Signed(window: int, negate: bool): int {
    if negate then -window else window
  }

  class WindowSlider {
    var exp: nat
    var windowModulus: nat
    var windowSize: nat
    var windowBegin: nat
    var expWindow: nat
    var fastNegate: bool
    var negateNext: bool
    var firstTime: bool
    var finished: bool

    ghost predicate Valid()
      reads this
    {
      1 <= windowSize && windowModulus == Pow2(windowSize) && (firstTime ==> windowBegin == 0 && !finished) &&
      (!firstTime && !finished ==> expWindow % 2 == 1 && expWindow < Pow2(windowSize) && (negateNext ==> fastNegate))
    }

    /** Low bits of exp that the current window has already taken. */
    ghost function Taken(): nat
      reads this
    {
      if firstTime then 0 else windowSize
    }

    /** What is left of the exponent beyond the current window. */
    ghost function Rest(): nat
      reads this
    {
      if finished then 0 else RestAt(exp, Taken(), windowBegin)
    }

    ghost function Window(): int
      reads this
    {
      if firstTime || finished then 0 else DigitAt(expWindow, negateNext, windowBegin)
    }

    /** No later window begins beyond this bit. */
    ghost function Limit(): (r: nat)
      reads this
      ensures r >= windowBegin
    {
      LimitAt(exp, Taken(), windowSize, windowBegin)
    }

    constructor (exponent: nat, fastNegate: bool, windowSizeIn: nat)
      ensures Valid() && firstTime && this.fastNegate == fastNegate
      ensures windowSize == if windowSizeIn == 0 then WindowSizeFor(BitCount(exponent)) else windowSizeIn
      ensures Rest() == exponent
    {
      exp, this.fastNegate, firstTime, finished, windowBegin := exponent, fastNegate, true, false, 0;
      negateNext, expWindow := false, 0;
      var size := if windowSizeIn == 0 then WindowSizeFor(BitCount(exponent)) else windowSizeIn;
      windowSize := size;
      windowModulus := Pow2(size);
      MaskedAll(exponent);
    }

    /** The next window takes an odd signed digit off the rest, above every earlier window. */
    method FindNextWindow()
      requires Valid() && !finished
      modifies this
      ensures Valid() && !firstTime && windowSize == old(windowSize) && fastNegate == old(fastNegate)
      ensures Window() + Rest() == old(Rest())
      ensures finished <==> old(Rest()) == 0
      ensures !finished ==> windowBegin >= old(windowBegin) + old(Taken())
      ensures !finished ==> Limit() <= old(Limit())
    {
      hide Pow2, Masked, GetBit, WordCount, DigitAt, RestAt, LimitAt, Shr, LowBits;
      var expLen := WordCount(exp) * WORD_BITS;
      var skipCount := if firstTime then 0 else windowSize;
      ghost var taken := skipCount;
      ScaleIsPow2(WordCount(exp));
      while !GetBit(exp, skipCount)
        invariant taken <= skipCount && exp == old(exp) && windowBegin == old(windowBegin) && windowSize == old(windowSize)
        invariant !finished && (firstTime == old(firstTime)) && windowModulus == old(windowModulus) && fastNegate == old(fastNegate)
        invariant Masked(exp, skipCount) == Masked(exp, taken)
        decreases expLen - skipCount
      {
        if skipCount >= expLen {
          NothingLeft(exp, expLen, skipCount, taken, windowBegin);
          firstTime := false;
          finished := true;
          return;
        }
        ZeroBitMasked(exp, skipCount);
        skipCount := skipCount + 1;
      }
      firstTime := false;
      ghost var x, begin, modulus := exp, windowBegin, Pow2(windowSize);
      exp := Shr(exp, skipCount);
      windowBegin := windowBegin + skipCount;
      expWindow := LowBits(exp, windowSize);
      ghost var y := exp;
      if fastNegate && GetBit(exp, windowSize) {
        negateNext := true;
        expWindow := Pow2(windowSize) - expWindow;
        exp := exp + windowModulus;
      } else {
        negateNext := false;
      }
      DigitTaken(x, begin, skipCount, taken, y, windowSize, exp, expWindow, negateNext);
    }
  }

  /** x without its n low bits. */
  ghost function Masked(x: nat, n: nat): (r: nat)
  {
    DivNat(x, Pow2(n));
    NatProduct(x / Pow2(n), Pow2(n));
    x / Pow2(n) * Pow2(n)
  }

  lemma MaskedAll(x: nat)
    ensures Masked(x, 0) * Pow2(0) == x
  {
    assert Pow2(0) == 1;
  }

  lemma ZeroBitMasked(x: nat, n: nat)
    requires !GetBit(x, n)
    ensures Masked(x, n + 1) == Masked(x, n)
  {
    DivPow2Next(x, n);
    assert x / Pow2(n + 1) * (2 * Pow2(n)) == 2 * (x / Pow2(n + 1)) * Pow2(n);
  }

  lemma NothingLeft(x: nat, expLen: nat, skip: nat, taken: nat, begin: nat)
    requires expLen <= skip && x < Pow2(expLen) && Masked(x, skip) == Masked(x, taken)
    ensures RestAt(x, taken, begin) == 0
  {
    hide Pow2;
    Pow2Monotone(expLen, skip);
    DivModUnique(x, Pow2(skip), 0, x);
    MulEqual(Masked(x, taken), Pow2(begin), 0, Pow2(begin));
  }

  lemma DigitTaken(x: nat, begin: nat, skip: nat, taken: nat, y: nat, w: nat, z: nat, window: nat, negate: bool)
    requires 1 <= w && taken <= skip && (taken == w || (taken == 0 && begin == 0)) && y == Shr(x, skip) && GetBit(x, skip)
    requires Masked(x, skip) == Masked(x, taken)
    requires negate ==> GetBit(y, w) && z == y + Pow2(w) && window == Pow2(w) - LowBits(y, w)
    requires !negate ==> z == y && window == LowBits(y, w)
    ensures window % 2 == 1 && window < Pow2(w)
    ensures DigitAt(window, negate, begin + skip) + RestAt(z, w, begin + skip) == RestAt(x, taken, begin)
    ensures 0 < RestAt(x, taken, begin)
    ensures LimitAt(z, w, w, begin + skip) <= LimitAt(x, taken, w, begin)
  {
    hide Masked, Pow2, Signed;
    assert y % 2 == 1;
    SignedDigit(y, w, z, window, negate);
    MaskedIs(x, skip, y);
    Pow2Add(skip, begin);
    AddMul(Signed(window, negate), Masked(z, w), Pow2(begin + skip));
    MulAssoc(y, Pow2(skip), Pow2(begin));
    MulPositive(y, Pow2(begin + skip));
    RestShrinks(x, skip, taken, y, w, z);
    LimitArithmetic(Shr(x, taken), Shr(z, w), skip - taken, skip, w);
  }

  lemma SignedDigit(y: nat, w: nat, z: nat, window: nat, negate: bool)
    requires 1 <= w && y % 2 == 1
    requires negate ==> z == y + Pow2(w) && window == Pow2(w) - y % Pow2(w)
    requires !negate ==> z == y && window == y % Pow2(w)
    ensures window % 2 == 1 && window < Pow2(w) && Signed(window, negate) + Masked(z, w) == y
  {
    hide Masked, Pow2;
    PowHalves(w);
    OddRemainder(y, Pow2(w - 1));
    QuotientSplit(y, Pow2(w));
    if negate {
      Raise(y, Pow2(w), z);
      MaskedIs(z, w, y / Pow2(w) + 1);
    } else {
      MaskedIs(z, w, y / Pow2(w));
    }
  }

  lemma PowHalves(w: nat)
    requires 1 <= w
    ensures Pow2(w) == 2 * Pow2(w - 1)
  {
  }

  lemma Raise(y: nat, p: nat, z: nat)
    requires 0 < p && z == y + p
    ensures z / p == y / p + 1 && (y / p + 1) * p == y / p * p + p
  {
    QuotientSplit(y, p);
    AddMul(y / p, 1, p);
    DivModUnique(z, p, y / p + 1, y % p);
  }

  lemma MaskedIs(x: nat, n: nat, q: nat)
    requires x / Pow2(n) == q
    ensures Masked(x, n) == q * Pow2(n)
  {
  }

  lemma OddRemainder(y: nat, half: nat)
    requires y % 2 == 1 && 0 < half
    ensures y % (2 * half) % 2 == 1 && 0 < y % (2 * half) < 2 * half
    ensures (2 * half - y % (2 * half)) % 2 == 1
  {
    QuotientSplit(y, 2 * half);
    OddRest(y, y / (2 * half), half, y % (2 * half));
  }

  lemma OddRest(y: int, q: int, half: int, rest: int)
    requires y == q * (2 * half) + rest && y % 2 == 1 && 0 <= rest
    ensures rest % 2 == 1 && 0 < rest && (2 * half - rest) % 2 == 1
  {
    var product := q * half;
    DoubleFactor(q, half);
    MulAssoc(2, q, half);
    assert y == 2 * product + rest;
    OddPart(product, rest);
    EvenMinusOdd(half, rest);
  }

  lemma OddPart(product: int, rest: int)
    requires (2 * product + rest) % 2 == 1
    ensures rest % 2 == 1
  {
  }

  lemma EvenMinusOdd(half: int, rest: int)
    requires rest % 2 == 1
    ensures (2 * half - rest) % 2 == 1
  {
  }

  /** Each window takes at least as many bits off what is left as it is further up. */
  lemma RestShrinks(x: nat, skip: nat, taken: nat, y: nat, w: nat, z: nat)
    requires 1 <= w && taken <= skip && y == x / Pow2(skip) && y % 2 == 1
    requires z == y || (z == y + Pow2(w) && GetBit(y, w))
    ensures z / Pow2(w) + 1 + (skip - taken) <= x / Pow2(taken)
  {
    hide *;
    PowAtLeastTwo(w);
    if z == y { TopShrinks(y, Pow2(w)); } else { RoundedUpShrinks(y, w, z); }
    ShiftBound(x, taken, skip, y);
  }

  lemma TopShrinks(y: nat, p: nat)
    requires p >= 2 && 0 < y
    ensures y / p + 1 <= y && 2 * (y / p) <= y
  {
    var q := y / p;
    assert y == q * p + y % p;
    MulMonotone(2, p, q);
    MulComm(2, q);
    MulComm(p, q);
  }

  lemma RoundedUpShrinks(y: nat, w: nat, z: nat)
    requires 1 <= w && y % 2 == 1 && z == y + Pow2(w) && GetBit(y, w)
    ensures z / Pow2(w) + 1 <= y
  {
    hide Pow2;
    var p := Pow2(w);
    var q := y / p;
    PowAtLeastTwo(w);
    TopShrinks(y, p);
    assert y == q * p + y % p;
    AddMul(q, 1, p);
    DivModUnique(z, p, q + 1, y % p);
  }

  lemma PowAtLeastTwo(w: nat)
    requires 1 <= w
    ensures Pow2(w) >= 2
  {
  }

  lemma {:induction false} ShiftBound(x: nat, taken: nat, skip: nat, y: nat)
    requires taken <= skip && y == x / Pow2(skip) && 0 < y
    ensures y + (skip - taken) <= x / Pow2(taken)
    decreases skip - taken
  {
    if taken < skip {
      ShiftBound(x, taken + 1, skip, y);
      DivPow2Next(x, taken);
    }
  }

  lemma LimitArithmetic(h: nat, h': nat, d: nat, skip: nat, w: nat)
    requires h' + 1 + d <= h && skip <= d + w && 1 <= w
    ensures w * h' + skip <= w * h
  {
    MulMonotone(h' + 1 + d, h, w);
    MulMonotone(1, w, d);
    assert w * (h' + 1 + d) == w * h' + w + w * d;
    MulComm(w, h);
    MulComm(w, h' + 1 + d);
  }

  // ---- Buckets ----

  /** The multiple a bucket list stands for: bucket j counts 2j + 1 times. */
  ghost function Weighted(x: seq<int>): int {
    if x == [] then 0 else Weighted(x[..|x| - 1]) + (2 * |x| - 1) * x[|x| - 1]
  }

  lemma {:induction false} WeightedUpdate(x: seq<int>, j: nat, v: int)
    requires j < |x|
    ensures Weighted(x[j := v]) == Weighted(x) + (2 * j + 1) * (v - x[j])
  {
    var n := |x| - 1;
    if j == n {
      assert x[j := v][..n] == x[..n];
      assert (2 * n + 1) * (v - x[n]) == (2 * n + 1) * v - (2 * n + 1) * x[n];
    } else {
      WeightedUpdate(x[..n], j, v);
      assert x[j := v][..n] == x[..n][j := v];
    }
  }

  lemma {:induction false} WeightedZeros(x: seq<int>)
    requires forall j :: 0 <= j < |x| ==> x[j] == 0
    ensures Weighted(x) == 0
  {
    if x != [] { WeightedZeros(x[..|x| - 1]); }
  }

  /** Each bucket holds the multiple of the base recorded for it. */
  ghost predicate Holds<T>(grp: Group<T>, base: T, bucket: seq<T>, x: seq<int>) {
    |bucket| == |x| && forall j {:trigger bucket[j]} {:trigger x[j]} :: 0 <= j < |x| ==> bucket[j] == Times(grp, base, x[j]) && Allowed(grp, x[j])
  }

  /** Buckets, the pending window and the rest of the slider together are the exponent. */
  ghost predicate Accounted<T>(grp: Group<T>, base: T, slider: WindowSlider, bucket: array<T>, x: seq<int>, exponent: nat)
    reads slider, bucket
  {
    slider.Valid() && !slider.firstTime && slider.fastNegate == grp.inversionIsFast &&
    bucket.Length == Pow2(slider.windowSize - 1) && Holds(grp, base, bucket[..], x) &&
    Weighted(x) + slider.Window() + slider.Rest() == exponent
  }

  lemma HoldsUpdate<T(!new)>(grp: Group<T>, base: T, bucket: seq<T>, x: seq<int>, j: nat, e: int, v: T, k: nat)
    requires Lawful(grp) && Holds(grp, base, bucket, x) && j < |x| && Allowed(grp, e) && k == 2 * j + 1
    requires v == grp.add(bucket[j], Times(grp, base, e))
    ensures Holds(grp, base, bucket[j := v], x[j := x[j] + e])
    ensures Weighted(x[j := x[j] + e]) == Weighted(x) + k * e
  {
    hide Lawful, Times, Weighted;
    TimesSum(grp, base, x[j], e);
    WeightedUpdate(x, j, x[j] + e);
  }

  /** Where the pending window begins, its digit goes to the bucket of its odd value and the next window is found. */
  method TakeWindow<T(!new)>(grp: Group<T>, base: T, g: T, slider: WindowSlider, bucket: array<T>,
                             ghost x: seq<int>, ghost exponent: nat) returns (ghost x': seq<int>)
    requires Lawful(grp) && Accounted(grp, base, slider, bucket, x, exponent) && !slider.finished
    requires g == Times(grp, base, Pow2(slider.windowBegin))
    modifies slider, bucket
    ensures Accounted(grp, base, slider, bucket, x', exponent)
    ensures slider.finished || (slider.windowBegin > old(slider.windowBegin) && slider.Limit() <= old(slider.Limit()))
  {
    hide Lawful, Times, Weighted, DigitAt, RestAt, LimitAt, Pow2;
    ghost var power := Pow2(slider.windowBegin);
    ghost var digit := Signed(1, slider.negateNext) * power;
    BucketIndex(slider.expWindow, slider.windowSize);
    DigitSplit(slider.expWindow, slider.negateNext, slider.windowBegin);
    var j := slider.expWindow / 2;
    ghost var before := bucket[..];
    if slider.negateNext {
      TimesInverse(grp, base, power);
      bucket[j] := grp.add(bucket[j], grp.inverse(g));
    } else {
      bucket[j] := grp.add(bucket[j], g);
    }
    HoldsUpdate(grp, base, before, x, j, digit, bucket[j], slider.expWindow);
    assert bucket[..] == before[j := bucket[j]];
    x' := x[j := x[j] + digit];
    slider.FindNextWindow();
  }

  lemma BucketIndex(window: nat, w: nat)
    requires 1 <= w && window < Pow2(w) && window % 2 == 1
    ensures window / 2 < Pow2(w - 1) && window == 2 * (window / 2) + 1
  {
  }

  lemma DigitSplit(window: int, negate: bool, begin: nat)
    ensures DigitAt(window, negate, begin) == window * (Signed(1, negate) * Pow2(begin))
    ensures Signed(1, negate) * Pow2(begin) == if negate then 0 - Pow2(begin) else Pow2(begin)
  {
    var p: int := Pow2(begin);
    if negate {
      assert (-window) * p == window * ((-1) * p);
    } else {
      assert window * p == window * (1 * p);
    }
  }

  // ---- The sweep over the buckets ----

  ghost function SumFrom(x: seq<int>, j: nat): int
    requires j <= |x|
    decreases |x| - j
  {
    if j == |x| then 0 else x[j] + SumFrom(x, j + 1)
  }

  /** The sums of all suffixes beginning at or after j. */
  ghost function SuffixSums(x: seq<int>, j: nat): int
    requires j <= |x|
    decreases |x| - j
  {
    if j == |x| then 0 else SumFrom(x, j) + SuffixSums(x, j + 1)
  }

  lemma {:induction false} SumFromLast(x: seq<int>, j: nat)
    requires j < |x|
    ensures SumFrom(x, j) == SumFrom(x[..|x| - 1], j) + x[|x| - 1]
    ensures SuffixSums(x, j) == SuffixSums(x[..|x| - 1], j) + (|x| - j) * x[|x| - 1]
    decreases |x| - j
  {
    var n := |x| - 1;
    if j == n {
      assert SumFrom(x, n + 1) == 0;
    } else {
      SumFromLast(x, j + 1);
      assert (|x| - j) * x[n] == (|x| - (j + 1)) * x[n] + x[n];
    }
  }

  /** Doubling the sum of the later suffix sums and adding the whole sum weighs every bucket by 2j + 1. */
  lemma {:induction false} SweepIsWeighted(x: seq<int>)
    requires x != []
    ensures 2 * SuffixSums(x, 1) + SumFrom(x, 0) == Weighted(x)
  {
    var n := |x| - 1;
    var y := x[..n];
    SumFromLast(x, 0);
    if n == 0 {
      assert SumFrom(x, 1) == 0;
      assert Weighted(y) == 0;
    } else {
      SumFromLast(x, 1);
      SweepIsWeighted(y);
      assert 2 * (n * x[n]) + x[n] == (2 * |x| - 1) * x[n];
    }
  }

  lemma {:induction false} SumsAllowed<T>(grp: Group<T>, x: seq<int>, j: nat)
    requires j <= |x| && forall i :: 0 <= i < |x| ==> Allowed(grp, x[i])
    ensures Allowed(grp, SumFrom(x, j)) && Allowed(grp, SuffixSums(x, j))
    decreases |x| - j
  {
    if j < |x| { SumsAllowed(grp, x, j + 1); }
  }

  method SweepBuckets<T(!new)>(grp: Group<T>, base: T, bucket: array<T>, ghost x: seq<int>) returns (r: T)
    requires Lawful(grp) && bucket.Length > 0 && Holds(grp, base, bucket[..], x)
    modifies bucket
    ensures r == Times(grp, base, Weighted(x))
  {
    hide Lawful, Times, Weighted;
    var n := bucket.Length;
    assert forall k :: 0 <= k < n ==> bucket[k] == bucket[..][k];
    r := bucket[n - 1];
    SweepIsWeighted(x);
    LastSums(x);
    if n > 1 {
      var j := n - 2;
      while j >= 1
        invariant 0 <= j <= n - 2
        invariant forall k :: 0 <= k <= j ==> bucket[k] == Times(grp, base, x[k])
        invariant bucket[j + 1] == Times(grp, base, SumFrom(x, j + 1))
        invariant r == Times(grp, base, SuffixSums(x, j + 1))
      {
        SumsAllowed(grp, x, j + 1);
        SumsAllowed(grp, x, j);
        TimesSum(grp, base, x[j], SumFrom(x, j + 1));
        TimesSum(grp, base, SuffixSums(x, j + 1), SumFrom(x, j));
        bucket[j] := grp.add(bucket[j], bucket[j + 1]);
        r := grp.add(r, bucket[j]);
        j := j - 1;
      }
      SumsAllowed(grp, x, 1);
      SumsAllowed(grp, x, 0);
      TimesSum(grp, base, x[0], SumFrom(x, 1));
      bucket[0] := grp.add(bucket[0], bucket[1]);
      var s := SuffixSums2(grp, base, x);
      TimesSum(grp, base, s, s);
      TimesSum(grp, base, 2 * s, SumFrom(x, 0));
      r := grp.add(grp.Double(r), bucket[0]);
    }
  }

  lemma LastSums(x: seq<int>)
    requires x != []
    ensures SumFrom(x, |x| - 1) == x[|x| - 1] && SuffixSums(x, |x| - 1) == x[|x| - 1] && SuffixSums(x, |x|) == 0
  {
    assert SumFrom(x, |x|) == 0;
  }

  lemma SuffixSums2<T>(grp: Group<T>, base: T, x: seq<int>) returns (s: int)
    requires |x| > 1 && forall i :: 0 <= i < |x| ==> Allowed(grp, x[i])
    ensures s == SuffixSums(x, 1) && Allowed(grp, s) && Allowed(grp, 2 * s)
  {
    SumsAllowed(grp, x, 1);
    s := SuffixSums(x, 1);
  }

  // ---- All exponents at once ----

  /** The working state for a list of exponents: one slider and one bucket list each, none shared. */
  ghost predicate Distinct<T>(sliders: seq<WindowSlider>, buckets: seq<array<T>>) {
    |sliders| == |buckets| &&
    (forall i, j :: 0 <= i < j < |sliders| ==> sliders[i] != sliders[j]) &&
    (forall i, j :: 0 <= i < j < |buckets| ==> buckets[i] != buckets[j])
  }

  ghost predicate AllAccounted<T>(grp: Group<T>, base: T, sliders: seq<WindowSlider>, buckets: seq<array<T>>,
                                  xs: seq<seq<int>>, exponents: seq<nat>)
    reads sliders, buckets
  {
    |sliders| == |buckets| == |xs| == |exponents| &&
    forall i :: 0 <= i < |sliders| ==> Accounted(grp, base, sliders[i], buckets[i], xs[i], exponents[i])
  }

  /** No pending window lies behind the current bit, and none will lie beyond the limit. */
  ghost predicate Ahead(sliders: seq<WindowSlider>, from: nat, to: nat, position: nat, limit: nat)
    requires from <= to <= |sliders|
    reads sliders
  {
    forall i :: from <= i < to && !sliders[i].finished ==> position <= sliders[i].windowBegin && sliders[i].Limit() <= limit
  }

  method StartWindows<T(!new)>(grp: Group<T>, base: T, exponents: seq<nat>)
      returns (sliders: seq<WindowSlider>, buckets: seq<array<T>>, ghost xs: seq<seq<int>>, ghost limit: nat)
    ensures Distinct(sliders, buckets) && |sliders| == |exponents|
    ensures forall i :: 0 <= i < |sliders| ==> fresh(sliders[i]) && fresh(buckets[i])
    ensures AllAccounted(grp, base, sliders, buckets, xs, exponents)
    ensures Ahead(sliders, 0, |sliders|, 0, limit)
  {
    hide Accounted, WindowSlider.Limit, WindowSlider.Valid;
    sliders, buckets, xs, limit := [], [], [], 0;
    for i := 0 to |exponents|
      invariant |sliders| == i && Distinct(sliders, buckets)
      invariant forall k :: 0 <= k < i ==> fresh(sliders[k]) && fresh(buckets[k])
      invariant AllAccounted(grp, base, sliders, buckets, xs, exponents[..i])
      invariant Ahead(sliders, 0, i, 0, limit)
    {
      ghost var sliders0, buckets0, xs0, limit0 := sliders, buckets, xs, limit;
      var slider, bucket;
      ghost var x;
      slider, bucket, x := StartWindow(grp, base, exponents[i]);
      sliders, buckets, xs := sliders + [slider], buckets + [bucket], xs + [x];
      limit := if limit < slider.Limit() then slider.Limit() else limit;
      assert AllAccounted(grp, base, sliders0, buckets0, xs0, exponents[..i]);
      assert Ahead(sliders0, 0, i, 0, limit0);
    }
    assert exponents[..|exponents|] == exponents;
  }

  method StartWindow<T(!new)>(grp: Group<T>, base: T, exponent: nat)
      returns (slider: WindowSlider, bucket: array<T>, ghost x: seq<int>)
    ensures fresh(slider) && fresh(bucket) && Accounted(grp, base, slider, bucket, x, exponent)
  {
    slider := new WindowSlider(exponent, grp.inversionIsFast, 0);
    slider.FindNextWindow();
    bucket := new T[Pow2(slider.windowSize - 1)](_ => grp.identity);
    x := seq(Pow2(slider.windowSize - 1), _ => 0);
    WeightedZeros(x);
  }

  method TakeIfDue<T(!new)>(grp: Group<T>, base: T, g: T, position: nat, slider: WindowSlider, bucket: array<T>,
                            ghost x: seq<int>, ghost exponent: nat, ghost limit: nat) returns (ghost x': seq<int>)
    requires Lawful(grp) && Accounted(grp, base, slider, bucket, x, exponent) && g == Times(grp, base, Pow2(position))
    requires !slider.finished ==> position <= slider.windowBegin && slider.Limit() <= limit
    modifies slider, bucket
    ensures Accounted(grp, base, slider, bucket, x', exponent)
    ensures !slider.finished ==> position < slider.windowBegin && slider.Limit() <= limit
  {
    hide Lawful, Times, Accounted, WindowSlider.Limit, WindowSlider.Valid, Pow2;
    x' := x;
    if !slider.finished && position == slider.windowBegin {
      x' := TakeWindow(grp, base, g, slider, bucket, x, exponent);
    }
  }

  /** One pass over the exponents at one bit position. */
  method TakeWindows<T(!new)>(grp: Group<T>, base: T, g: T, position: nat, sliders: seq<WindowSlider>, buckets: seq<array<T>>,
                              ghost xs: seq<seq<int>>, ghost exponents: seq<nat>, ghost limit: nat)
      returns (notDone: bool, ghost xs': seq<seq<int>>)
    requires Lawful(grp) && Distinct(sliders, buckets) && AllAccounted(grp, base, sliders, buckets, xs, exponents)
    requires Ahead(sliders, 0, |sliders|, position, limit) && g == Times(grp, base, Pow2(position))
    modifies sliders, buckets
    ensures AllAccounted(grp, base, sliders, buckets, xs', exponents)
    ensures Ahead(sliders, 0, |sliders|, position + 1, limit)
    ensures !notDone ==> forall i :: 0 <= i < |sliders| ==> sliders[i].finished
    ensures notDone ==> position < limit
  {
    hide Lawful, Times, Accounted, WindowSlider.Limit, WindowSlider.Valid, Pow2;
    notDone, xs' := false, xs;
    for i := 0 to |sliders|
      invariant AllAccounted(grp, base, sliders, buckets, xs', exponents)
      invariant Ahead(sliders, 0, i, position + 1, limit) && Ahead(sliders, i, |sliders|, position, limit)
      invariant !notDone ==> forall k :: 0 <= k < i ==> sliders[k].finished
      invariant notDone ==> position < limit
    {
      ghost var x := TakeIfDue(grp, base, g, position, sliders[i], buckets[i], xs'[i], exponents[i], limit);
      xs' := xs'[i := x];
      notDone := notDone || !sliders[i].finished;
    }
  }

  method SimultaneousMultiply<T(!new)>(grp: Group<T>, results: array<T>, base: T, exponents: seq<nat>)
    requires Lawful(grp) && results.Length >= |exponents|
    modifies results
    ensures forall i :: 0 <= i < |exponents| ==> results[i] == Times(grp, base, exponents[i])
    ensures forall i :: |exponents| <= i < results.Length ==> results[i] == old(results[i])
  {
    hide Lawful, Times, Pow2, Accounted, WindowSlider.Limit, WindowSlider.Valid;
    var sliders, buckets;
    ghost var xs, limit;
    sliders, buckets, xs, limit := StartWindows(grp, base, exponents);
    var expBitPosition := 0;
    var g := base;
    BaseItself(grp, base);
    var notDone := true;
    while notDone
      invariant results[..] == old(results[..])
      invariant AllAccounted(grp, base, sliders, buckets, xs, exponents)
      invariant notDone ==> Ahead(sliders, 0, |sliders|, expBitPosition, limit) && expBitPosition <= limit
      invariant notDone ==> g == Times(grp, base, Pow2(expBitPosition))
      invariant !notDone ==> forall i :: 0 <= i < |sliders| ==> sliders[i].finished
      decreases notDone, (limit as int) - expBitPosition
    {
      notDone, xs := TakeWindows(grp, base, g, expBitPosition, sliders, buckets, xs, exponents, limit);
      if notDone {
        Doubled(grp, base, expBitPosition);
        g := grp.Double(g);
        expBitPosition := expBitPosition + 1;
      }
    }
    CollectResults(grp, results, base, sliders, buckets, xs, exponents);
  }

  method CollectResults<T(!new)>(grp: Group<T>, results: array<T>, base: T, sliders: seq<WindowSlider>, buckets: seq<array<T>>,
                                 ghost xs: seq<seq<int>>, exponents: seq<nat>)
    requires Lawful(grp) && Distinct(sliders, buckets) && AllAccounted(grp, base, sliders, buckets, xs, exponents)
    requires forall i :: 0 <= i < |sliders| ==> sliders[i].finished && buckets[i] != results
    requires results.Length >= |exponents|
    modifies results, buckets
    ensures forall i :: 0 <= i < |exponents| ==> results[i] == Times(grp, base, exponents[i])
    ensures forall i :: |exponents| <= i < results.Length ==> results[i] == old(results[i])
  {
    hide Lawful, Times, Pow2, Holds, Weighted;
    for i := 0 to |exponents|
      invariant forall k :: 0 <= k < i ==> results[k] == Times(grp, base, exponents[k])
      invariant forall k :: |exponents| <= k < results.Length ==> results[k] == old(results[k])
      invariant forall k :: i <= k < |sliders| ==> Accounted(grp, base, sliders[k], buckets[k], xs[k], exponents[k])
    {
      var r := SweepBuckets(grp, base, buckets[i], xs[i]);
      results[i] := r;
    }
  }

  lemma BaseItself<T(!new)>(grp: Group<T>, base: T)
    requires Lawful(grp)
    ensures Times(grp, base, Pow2(0)) == base
  {
    assert Times(grp, base, 1) == grp.add(Times(grp, base, 0), base);
  }

  lemma Doubled<T(!new)>(grp: Group<T>, base: T, n: nat)
    requires Lawful(grp)
    ensures Times(grp, base, Pow2(n + 1)) == grp.Double(Times(grp, base, Pow2(n)))
  {
    hide Lawful, Times;
    TimesSum(grp, base, Pow2(n), Pow2(n));
  }
}
