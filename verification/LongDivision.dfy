/** Divide: normalisation, the first quotient word, and the two-words-at-a-time loop. */
module LongDivision {
  import opened Integers
  import opened Words
  import opened WordArithmetic
  import opened SmallMultiply
  import opened Shifts
  import opened Division

  /** Dividend and divisor are both scaled by this before dividing. */
  ghost function Normalizer(shiftWords: nat, shiftBits: nat): (k: nat)
    ensures k > 0
  {
    MulPositive(Scale(shiftWords), Pow2(shiftBits));
    Scale(shiftWords) * Pow2(shiftBits)
  }

  // ---- Normalisation ----

  /** Copies n words of a to r, one word up if w = 1 (dropping the top word), zeros elsewhere. */
  method CopyShifted(m: array<Word>, r: nat, a: nat, n: nat, w: nat)
    requires w <= 1 && n >= 2 && r + n <= m.Length && a + n <= m.Length && Disjoint(r, n, a, n)
    requires w == 1 ==> m[a + n - 1] == 0
    modifies m
    ensures Num(m[..], r, n) == old(Num(m[..], a, n)) * Scale(w)
    ensures w == 1 ==> m[r + n - 1] == old(m[a + n - 2])
    ensures w == 0 ==> m[r + n - 1] == old(m[a + n - 1])
    ensures OnlyChanged(old(m[..]), m[..], r, n)
  {
    hide Num, Scale, SameWords;
    ghost var s0 := m[..];
    m[r], m[r + n - 1] := 0, 0;
    ghost var s1 := m[..];
    CopyWords(m, r + w, a, n - w);
    CopiedNumbers(s0, s1, m[..], r, a, n, w);
  }

  lemma CopiedNumbers(s0: seq<Word>, s1: seq<Word>, s2: seq<Word>, r: nat, a: nat, n: nat, w: nat)
    requires w <= 1 && n >= 2 && |s0| == |s1| == |s2| && r + n <= |s0| && a + n <= |s0| && Disjoint(r, n, a, n)
    requires w == 1 ==> s0[a + n - 1] == 0
    requires OnlyChanged(s0, s1, r, n) && s1[r] == 0 && OnlyChanged(s1, s2, r + w, n - w) && SameWords(s2, r + w, s1, a, n - w)
    ensures Num(s2, r, n) == Num(s0, a, n) * Scale(w)
    ensures s2[r + n - 1] == s0[a + n - w - 1]
  {
    hide Num, Scale, SameWords;
    NumShort(s0, a);
    LastCopied(s0, s1, s2, r, a, n, w);
    if w == 1 {
      CopiedUp(s0, s1, s2, r, a, n);
    } else {
      CopiedAcross(s0, s1, s2, r, a, n);
      MulEqual(Num(s0, a, n), Scale(w), Num(s0, a, n), 1);
    }
  }

  lemma CopiedAcross(s0: seq<Word>, s1: seq<Word>, s2: seq<Word>, r: nat, a: nat, n: nat)
    requires |s0| == |s1| == |s2| && r + n <= |s0| && a + n <= |s0| && Disjoint(r, n, a, n)
    requires OnlyChanged(s0, s1, r, n) && SameWords(s2, r, s1, a, n)
    ensures Num(s2, r, n) == Num(s0, a, n)
  {
    hide Num;
    NumSame(s2, r, s1, a, n);
    NumSame(s1, a, s0, a, n);
  }

  lemma LastCopied(s0: seq<Word>, s1: seq<Word>, s2: seq<Word>, r: nat, a: nat, n: nat, w: nat)
    requires w <= 1 && n >= 2 && |s0| == |s1| == |s2| && r + n <= |s0| && a + n <= |s0| && Disjoint(r, n, a, n)
    requires OnlyChanged(s0, s1, r, n) && SameWords(s2, r + w, s1, a, n - w)
    ensures s2[r + n - 1] == s0[a + n - w - 1]
  {
    var i := r + n - 1;
    assert s2[i] == s1[i - (r + w) + a];
  }

  lemma CopiedUp(s0: seq<Word>, s1: seq<Word>, s2: seq<Word>, r: nat, a: nat, n: nat)
    requires n >= 2 && |s0| == |s1| == |s2| && r + n <= |s0| && a + n <= |s0| && Disjoint(r, n, a, n)
    requires s0[a + n - 1] == 0 && OnlyChanged(s0, s1, r, n) && s1[r] == 0
    requires OnlyChanged(s1, s2, r + 1, n - 1) && SameWords(s2, r + 1, s1, a, n - 1)
    ensures Num(s2, r, n) == Num(s0, a, n) * BASE
  {
    hide Num, Scale;
    CopiedFromBelow(s0, s1, s2, r, a, n);
    FirstWord(s2, r, n);
    NumNext(s0, a, n - 1);
    MulEqual(s0[a + n - 1], Scale(n - 1), 0, Scale(n - 1));
    MulComm(BASE, Num(s0, a, n));
  }

  lemma CopiedFromBelow(s0: seq<Word>, s1: seq<Word>, s2: seq<Word>, r: nat, a: nat, n: nat)
    requires n >= 2 && |s0| == |s1| == |s2| && r + n <= |s0| && a + n <= |s0| && Disjoint(r, n, a, n)
    requires OnlyChanged(s0, s1, r, n) && s1[r] == 0
    requires OnlyChanged(s1, s2, r + 1, n - 1) && SameWords(s2, r + 1, s1, a, n - 1)
    ensures Num(s2, r + 1, n - 1) == Num(s0, a, n - 1) && s2[r] == 0
  {
    hide Num, Scale;
    NumSame(s2, r + 1, s1, a, n - 1);
    NumSame(s1, a, s0, a, n - 1);
  }

  method NormalizeDivisor(m: array<Word>, tb: nat, b: nat, n: nat) returns (w: nat, k: nat)
    requires n >= 2 && tb + n <= m.Length && b + n <= m.Length && Disjoint(tb, n, b, n)
    requires m[b + n - 1] != 0 || m[b + n - 2] != 0
    modifies m
    ensures w <= 1 && k < WORD_BITS
    ensures Num(m[..], tb, n) == old(Num(m[..], b, n)) * Normalizer(w, k)
    ensures Scale(n) <= 2 * Num(m[..], tb, n)
    ensures Scale(n - 2) <= old(Num(m[..], b, n))
    ensures OnlyChanged(old(m[..]), m[..], tb, n)
  {
    hide Num, Scale, Pow2;
    ghost var s0 := m[..];
    w := if m[b + n - 1] == 0 then 1 else 0;
    CopyShifted(m, tb, b, n, w);
    ghost var s1 := m[..];
    var precision := BitPrecision(m[tb + n - 1]);
    k := WORD_BITS - precision;
    assert k < WORD_BITS;
    var carry := ShiftWordsLeftByBits(m, tb, n, k);
    TopBitSet(s1, m[..], tb, n, precision, carry);
    MulAssoc(Num(s0, b, n), Scale(w), Pow2(k));
    TopTwoNonzero(s0, b, n);
  }

  lemma TopTwoNonzero(s: seq<Word>, b: nat, n: nat)
    requires n >= 2 && b + n <= |s| && (s[b + n - 1] != 0 || s[b + n - 2] != 0)
    ensures Scale(n - 2) <= Num(s, b, n)
  {
    NumSplit(s, b, n - 2, 2);
    var top := Num(s, b + n - 2, 2);
    NumTwo(s, b + n - 2);
    if s[b + n - 1] != 0 { MulMonotone(1, s[b + n - 1], BASE); }
    MulMonotone(1, top, Scale(n - 2));
    MulComm(top, Scale(n - 2));
  }

  lemma TopBitSet(s: seq<Word>, t: seq<Word>, p: nat, n: nat, precision: nat, carry: nat)
    requires 0 < n && p + n <= |s| && p + n <= |t| && 0 < precision <= WORD_BITS
    requires Pow2(precision - 1) <= s[p + n - 1] < Pow2(precision)
    requires Num(t, p, n) + carry * Scale(n) == Num(s, p, n) * Pow2(WORD_BITS - precision)
    ensures carry == 0 && Num(t, p, n) == Num(s, p, n) * Pow2(WORD_BITS - precision)
    ensures Scale(n) <= 2 * Num(t, p, n)
  {
    hide Num, Scale;
    NumNext(s, p, n - 1);
    NumBound(s, p, n - 1);
    Pow2Add(precision, WORD_BITS - precision);
    Pow2Add(precision - 1, WORD_BITS - precision);
    HalfBase(precision);
    ShiftRange(Num(s, p, n - 1), s[p + n - 1], Scale(n - 1), Pow2(precision - 1), Pow2(precision), Pow2(WORD_BITS - precision),
               BASE, Num(s, p, n), Num(t, p, n), carry);
  }

  lemma HalfBase(precision: nat)
    requires 0 < precision <= WORD_BITS
    ensures 2 * Pow2(precision - 1) == Pow2(precision)
  {
  }

  lemma ShiftRange(low: nat, top: nat, scale: nat, p': nat, p: nat, k: nat, base: nat, x: nat, y: nat, carry: nat)
    requires low < scale && p' <= top < p && p == 2 * p' && p * k == base && 0 < k
    requires x == low + top * scale && y + carry * (base * scale) == x * k
    ensures carry == 0 && y == x * k && base * scale <= 2 * y
  {
    TopWordBound(low, top, scale, p);
    ScaledBound(p', p, k, scale, base);
    NoBitsLost(x, p * scale, k, y, carry, base * scale);
    MulMonotone(p', top, scale);
    NatProduct(p', scale);
    HalfKept(p' * scale, x, k, y, base * scale);
  }

  lemma ScaledBound(p': nat, p: nat, k: nat, scale: nat, base: nat)
    requires p == 2 * p' && p * k == base
    ensures p * scale * k == base * scale && 2 * (p' * scale) * k == base * scale && 0 <= p * scale && 0 <= base * scale
  {
    MulComm(p, scale);
    MulAssoc(scale, p, k);
    MulComm(scale, base);
    MulAssoc(2, p', scale);
    NatProduct(p, scale);
    NatProduct(base, scale);
  }

  lemma NoBitsLost(x: nat, bound: nat, k: nat, y: nat, carry: nat, big: nat)
    requires x < bound && bound * k == big && 0 < k && y + carry * big == x * k
    ensures carry == 0 && y == x * k
  {
    MulMonotone(x, bound - 1, k);
    AddMul(bound, -1, k);
    if 1 <= carry { MulMonotone(1, carry, big); }
  }

  lemma HalfKept(half: nat, x: nat, k: nat, y: nat, big: nat)
    requires half <= x && y == x * k && 2 * half * k == big
    ensures big <= 2 * y
  {
    MulMonotone(half, x, k);
    MulAssoc(2, half, k);
  }

  method NormalizeDividend(m: array<Word>, ta: nat, a: nat, n: nat, w: nat, k: nat)
    requires n >= 2 && w <= 1 && k < WORD_BITS && ta + n + 2 <= m.Length && a + n <= m.Length && Disjoint(ta, n + 2, a, n)
    modifies m
    ensures Num(m[..], ta, n + 2) == old(Num(m[..], a, n)) * Normalizer(w, k)
    ensures OnlyChanged(old(m[..]), m[..], ta, n + 2)
  {
    hide Num, Scale, Pow2;
    ghost var s0 := m[..];
    m[ta], m[ta + n], m[ta + n + 1] := 0, 0, 0;
    ghost var s1 := m[..];
    CopyWords(m, ta + w, a, n);
    NumSame(s1, a, s0, a, n);
    ghost var s2 := m[..];
    PlacedDividend(s0, s2, ta, a, n, w);
    var carry := ShiftWordsLeftByBits(m, ta, n + 2, k);
    RoomForShift(Num(s2, ta, n + 2), Num(m[..], ta, n + 2), carry, k, n);
    MulAssoc(Num(s0, a, n), Scale(w), Pow2(k));
  }

  lemma PlacedDividend(s0: seq<Word>, s2: seq<Word>, ta: nat, a: nat, n: nat, w: nat)
    requires w <= 1 && n >= 2 && |s0| == |s2| && ta + n + 2 <= |s0| && a + n <= |s0|
    requires Num(s2, ta + w, n) == Num(s0, a, n)
    requires w == 1 ==> s2[ta] == 0
    requires w == 0 ==> s2[ta + n] == 0
    requires s2[ta + n + 1] == 0
    ensures Num(s2, ta, n + 2) == Num(s0, a, n) * Scale(w)
    ensures Num(s2, ta, n + 2) < Scale(n + 1)
  {
    hide Num, Scale;
    NumNext(s2, ta, n);
    NumNext(s2, ta, n + 1);
    NumShort(s2, ta);
    NumBound(s2, ta, n + 1);
    if w == 1 {
      FirstWord(s2, ta, n + 1);
      MulComm(BASE, Num(s0, a, n));
    }
  }

  lemma RoomForShift(x: nat, y: nat, carry: nat, k: nat, n: nat)
    requires k < WORD_BITS && x < Scale(n + 1) && y + carry * Scale(n + 2) == x * Pow2(k)
    ensures carry == 0 && y == x * Pow2(k)
  {
    hide Pow2;
    Pow2Monotone(k, WORD_BITS);
    var scale, next := Scale(n + 1), Scale(n + 2);
    assert next == BASE * scale;
    hide Scale;
    MulMonotone(Pow2(k), BASE, x);
    MulMonotone(x + 1, scale, BASE);
    AddMul(x, 1, BASE);
    MulComm(scale, BASE);
    MulComm(x, Pow2(k));
    MulComm(x, BASE);
    NoCarry(y, carry, next);
  }

  // ---- One step of the loop ----

  /** The top two divisor words plus one; two zero words stand for BASE * BASE. */
  method EstimateDivisor(m: array<Word>, tb: nat, n: nat) returns (d0: Word, d1: Word)
    requires n >= 2 && tb + n <= m.Length
    ensures Divisor(d0, d1) == Num(m[..], tb + n - 2, 2) + 1
  {
    d0 := (m[tb + n - 2] + 1) % BASE;
    WrapAdd(m[tb + n - 2], 1);
    d1 := (m[tb + n - 1] + (if d0 == 0 then 1 else 0)) % BASE;
    WrapAdd(m[tb + n - 1], 1);
    WrapAdd(m[tb + n - 1], 0);
    NumTwo(m[..], tb + n - 2);
    if d0 == 0 && d1 == 0 {
      assert (m[tb + n - 1] + 1) * BASE == BASE * BASE;
    }
  }

  method AtomicDivide(m: array<Word>, q: nat, a: nat, d0: Word, d1: Word)
    requires q + 2 <= m.Length && a + 4 <= m.Length && Disjoint(q, 2, a, 4)
    requires Num(m[..], a + 2, 2) < Divisor(d0, d1)
    modifies m
    ensures var g := old(Num(m[..], a, 4));
            Num(m[..], q, 2) * Divisor(d0, d1) <= g < (Num(m[..], q, 2) + 1) * Divisor(d0, d1)
    ensures OnlyChanged(old(m[..]), m[..], q, 2)
  {
    hide Num, Divisor, Scale;
    NumFour(m[..], a);
    NumTwo(m[..], a + 2);
    var q0, q1 := DivideFourWordsByTwo(m[a], m[a + 1], m[a + 2], m[a + 3], d0, d1);
    m[q], m[q + 1] := q0, q1;
    NumTwo(m[..], q);
  }

  /** n + 2 words at r are divided by the n words at b: two quotient words at q, the remainder at r. */
  method DivideWindow(m: array<Word>, r: nat, t: nat, q: nat, b: nat, n: nat, d0: Word, d1: Word)
    requires EstimateOperands(m.Length, r, t, q, b, n) && n >= 2
    requires Divisor(d0, d1) == Num(m[..], b + n - 2, 2) + 1
    requires Num(m[..], r + 2, n) < Num(m[..], b, n)
    modifies m
    ensures Num(m[..], q, 2) * Num(m[..], b, n) + Num(m[..], r, n) == old(Num(m[..], r, n + 2))
    ensures Num(m[..], r, n) < Num(m[..], b, n) && m[r + n] == 0 && m[r + n + 1] == 0
    ensures OnlyChanged3(old(m[..]), m[..], r, n + 2, t, n + 2, q, 2)
  {
    hide Num, Scale, Divisor;
    ghost var s0 := m[..];
    TopWindow(s0, r, b, n);
    AtomicDivide(m, q, r + n - 2, d0, d1);
    ghost var s1 := m[..];
    NumsKept(s0, s1, q, 2);
    EstimateGood(s0, s1, r, q, b, n);
    CorrectQuotientEstimate(m, r, t, q, b, n);
  }

  lemma TopWindow(s: seq<Word>, r: nat, b: nat, n: nat)
    requires n >= 2 && r + n + 2 <= |s| && b + n <= |s| && Num(s, r + 2, n) < Num(s, b, n)
    ensures Num(s, r + n, 2) <= Num(s, b + n - 2, 2)
  {
    hide Num, Scale;
    NumSplit(s, r + 2, n - 2, 2);
    NumSplit(s, b, n - 2, 2);
    NumBound(s, b, n - 2);
    TopCompare(Num(s, r + 2, n - 2), Num(s, r + n, 2), Num(s, b, n - 2), Num(s, b + n - 2, 2), Scale(n - 2));
  }

  lemma TopCompare(x0: nat, x1: nat, y0: nat, y1: nat, scale: nat)
    requires x0 + scale * x1 < y0 + scale * y1 && y0 < scale
    ensures x1 <= y1
  {
    if y1 < x1 { MulMonotone(y1 + 1, x1, scale); }
  }

  lemma EstimateGood(s: seq<Word>, s1: seq<Word>, r: nat, q: nat, b: nat, n: nat)
    requires n >= 2 && |s| == |s1| && r + n + 2 <= |s| && q + 2 <= |s| && b + n <= |s|
    requires Num(s, r + 2, n) < Num(s, b, n)
    requires Num(s1, r, n + 2) == Num(s, r, n + 2) && Num(s1, b, n) == Num(s, b, n)
    requires var d := Num(s, b + n - 2, 2) + 1;
             Num(s1, q, 2) * d <= Num(s, r + n - 2, 4) < (Num(s1, q, 2) + 1) * d
    ensures Underestimates(s1, r, q, b, n)
  {
    hide Num, Scale;
    NumSplit(s, r, n - 2, 4);
    NumSplit(s, b, n - 2, 2);
    NumBound(s, r, n - 2);
    NumBound(s, b, n - 2);
    NumBound(s1, q, 2);
    NumBound(s, b + n - 2, 2);
    ScaleAdd(n - 2, 2);
    EstimateRange(Num(s1, q, 2), Num(s, b, n - 2), Num(s, b + n - 2, 2), Num(s, r, n - 2), Num(s, r + n - 2, 4),
                  Scale(n - 2), Scale(2), Num(s1, b, n), Num(s1, r, n + 2));
    NumSplit(s, r, 2, n);
    NumBound(s, r, 2);
    BelowTimes(Num(s, r, 2), Num(s, r + 2, n), Num(s1, b, n), Scale(2));
  }

  lemma EstimateRange(q: nat, bl: nat, h: nat, rl: nat, g: nat, scale: nat, sq: nat, b: nat, r: nat)
    requires bl < scale && rl < scale && q < sq && h < sq
    requires b == bl + scale * h && r == rl + scale * g
    requires q * (h + 1) <= g < (q + 1) * (h + 1)
    ensures q * b <= r && r - q * b < 2 * (scale * sq)
  {
    NeverOvershoots(q, h, g, scale, b, r);
    CloseEstimate(q, h, g, scale, sq, b, r);
  }

  lemma NeverOvershoots(q: nat, h: nat, g: nat, scale: nat, b: nat, r: nat)
    requires b <= scale * (h + 1) && q * (h + 1) <= g && scale * g <= r
    ensures q * b <= r
  {
    MulMonotone(b, scale * (h + 1), q);
    MulComm(b, q);
    MulComm(scale * (h + 1), q);
    assert q * (scale * (h + 1)) == q * (h + 1) * scale;
    MulMonotone(q * (h + 1), g, scale);
    MulComm(g, scale);
  }

  lemma CloseEstimate(q: nat, h: nat, g: nat, scale: nat, sq: nat, b: nat, r: nat)
    requires q < sq && h < sq && scale * h <= b && r < scale * (g + 1) && g < (q + 1) * (h + 1)
    ensures r - q * b < 2 * (scale * sq)
  {
    MulMonotone(scale * h, b, q);
    MulComm(scale * h, q);
    MulComm(b, q);
    assert (q + 1) * (h + 1) == q * h + q + h + 1;
    MulMonotone(g + 1, q * h + 2 * sq, scale);
    MulComm(g + 1, scale);
    ScaledSum(q, h, sq, scale);
  }

  lemma ScaledSum(q: int, h: int, sq: int, scale: int)
    ensures (q * h + 2 * sq) * scale == q * (scale * h) + 2 * (scale * sq)
  {
    AddMul(q * h, 2 * sq, scale);
    MulAssoc(q, h, scale);
    MulComm(h, scale);
    MulAssoc(2, sq, scale);
    MulComm(sq, scale);
  }

  lemma BelowTimes(low: nat, high: nat, b: nat, scale: nat)
    requires low < scale && high < b
    ensures low + scale * high < b * scale
  {
    MulMonotone(high + 1, b, scale);
  }

  // ---- The first quotient word ----

  /** When the scaled dividend is less than two units above the window, its first quotient word is found by subtraction. */
  method FirstQuotient(m: array<Word>, r: nat, q: nat, b: nat, n: nat)
    requires n >= 2 && n % 2 == 0 && r + n + 1 <= m.Length && q + 2 <= m.Length && b + n <= m.Length
    requires Disjoint(r, n + 1, q, 2) && Disjoint(r, n + 1, b, n) && Disjoint(q, 2, b, n)
    requires m[r + n] <= 1 && Scale(n) <= 2 * Num(m[..], b, n)
    modifies m
    ensures Num(m[..], q, 2) * Num(m[..], b, n) + Num(m[..], r, n) == old(Num(m[..], r, n + 1))
    ensures Num(m[..], r, n) < Num(m[..], b, n) && m[r + n] == 0
    ensures OnlyChanged2(old(m[..]), m[..], r, n + 1, q, 2)
  {
    hide Num, Scale;
    ghost var s0 := m[..];
    ghost var total := Num(s0, r, n + 1);
    FirstTotal(s0, r, b, n);
    m[q + 1], m[q] := 0, 0;
    NumsKept(s0, m[..], q, 2);
    QuotientWord(m[..], q, 0);
    MulEqual(Num(m[..], q, 2), Num(s0, b, n), 0, Num(s0, b, n));
    var order := Compare(m, r, b, n);
    while m[r + n] != 0 || order >= 0
      invariant OnlyChanged2(s0, m[..], r, n + 1, q, 2)
      invariant Num(m[..], b, n) == Num(s0, b, n)
      invariant order == Sign(Num(m[..], r, n) - Num(m[..], b, n))
      invariant m[q + 1] == 0 && m[q] * Num(s0, b, n) + Num(m[..], r, n + 1) == total
      decreases Num(m[..], r, n + 1)
    {
      SubtractOnce(m, r, q, b, n, total);
      order := Compare(m, r, b, n);
    }
    NumNext(m[..], r, n);
    QuotientWord(m[..], q, m[q]);
    MulEqual(Num(m[..], q, 2), Num(m[..], b, n), m[q], Num(s0, b, n));
  }

  lemma QuotientWord(s: seq<Word>, q: nat, w: Word)
    requires q + 2 <= |s| && s[q + 1] == 0 && s[q] == w
    ensures Num(s, q, 2) == w
  {
    NumTwo(s, q);
  }

  lemma FirstTotal(s: seq<Word>, r: nat, b: nat, n: nat)
    requires r + n + 1 <= |s| && b + n <= |s| && s[r + n] <= 1 && Scale(n) <= 2 * Num(s, b, n)
    ensures Num(s, r, n + 1) < 4 * Num(s, b, n)
  {
    NumNext(s, r, n);
    NumBound(s, r, n);
    MulMonotone(s[r + n], 1, Scale(n));
  }

  method SubtractOnce(m: array<Word>, r: nat, q: nat, b: nat, n: nat, ghost total: nat)
    requires 0 < n && n % 2 == 0 && r + n + 1 <= m.Length && q + 2 <= m.Length && b + n <= m.Length
    requires Disjoint(r, n + 1, q, 2) && Disjoint(r, n + 1, b, n) && Disjoint(q, 2, b, n)
    requires m[q + 1] == 0 && m[q] * Num(m[..], b, n) + Num(m[..], r, n + 1) == total < 4 * Num(m[..], b, n)
    requires m[r + n] != 0 || Num(m[..], r, n) >= Num(m[..], b, n)
    modifies m
    ensures Num(m[..], b, n) == old(Num(m[..], b, n)) && m[q + 1] == 0
    ensures m[q] * old(Num(m[..], b, n)) + Num(m[..], r, n + 1) == total
    ensures Num(m[..], r, n + 1) < old(Num(m[..], r, n + 1))
    ensures OnlyChanged2(old(m[..]), m[..], r, n + 1, q, 2)
  {
    hide Num, Scale;
    ghost var s0 := m[..];
    NumNext(s0, r, n);
    NumBound(s0, b, n);
    AtLeastDivisor(Num(s0, r, n), s0[r + n], Num(s0, b, n), Scale(n));
    RoomForOne(s0[q], Num(s0, b, n), Num(s0, r, n + 1), total, 4) by { MulComm(4, Num(s0, b, n)); }
    var borrow := Subtract(m, r, r, b, n);
    ghost var s1 := m[..];
    NumsKept(s0, s1, r, n);
    NumBound(s1, r, n);
    BorrowCovered(Num(s0, r, n), s0[r + n], Num(s0, b, n), Num(s1, r, n), borrow, Scale(n));
    m[r + n] := (m[r + n] - borrow) % BASE;
    WrapSub(s1[r + n], borrow);
    ghost var s2 := m[..];
    NumsKept(s1, s2, r + n, 1);
    NumNext(s2, r, n);
    BaseAtLeast256();
    m[q] := (m[q] + 1) % BASE;
    WrapAdd(s2[q], 1);
    NumsKept(s2, m[..], q, 2);
    AddMul(s0[q], 1, Num(s0, b, n));
    MulEqual(m[q], Num(s0, b, n), s0[q] + 1, Num(s0, b, n));
  }

  // ---- The whole division ----

  /** Quotient words from position e - nb upwards are final; the dividend is reduced below position e. */
  ghost predicate PartlyDivided(s: seq<Word>, ta: nat, tb: nat, q: nat, nb: nat, nq: nat, e: nat, total: int)
  {
    nb <= e <= nq + nb && ta + e <= |s| && tb + nb <= |s| && q + nq <= |s| &&
    Num(s, q + e - nb, nq + nb - e) * Num(s, tb, nb) * Scale(e - nb) + Num(s, ta, e) == total &&
    Num(s, ta + e - nb, nb) < Num(s, tb, nb)
  }

  /** Where Divide keeps its operands in memory. */
  ghost predicate DivideOperands(size: nat, r: nat, q: nat, t: nat, a: nat, na: nat, b: nat, nb: nat) {
    2 <= nb <= na && na % 2 == 0 && nb % 2 == 0 &&
    r + nb <= size && q + na - nb + 2 <= size && t + na + 2 * nb + 4 <= size && a + na <= size && b + nb <= size &&
    Disjoint(t, na + 2 * nb + 4, a, na) && Disjoint(t, na + 2 * nb + 4, b, nb) &&
    Disjoint(t, na + 2 * nb + 4, q, na - nb + 2) && Disjoint(t, na + 2 * nb + 4, r, nb) && Disjoint(q, na - nb + 2, r, nb)
  }

  method Divide(m: array<Word>, r: nat, q: nat, t: nat, a: nat, na: nat, b: nat, nb: nat)
    requires DivideOperands(m.Length, r, q, t, a, na, b, nb)
    requires m[b + nb - 1] != 0 || m[b + nb - 2] != 0
    modifies m
    ensures old(Num(m[..], a, na)) == Num(m[..], q, na - nb + 2) * old(Num(m[..], b, nb)) + Num(m[..], r, nb)
    ensures Num(m[..], r, nb) < old(Num(m[..], b, nb))
    ensures OnlyChanged3(old(m[..]), m[..], r, nb, q, na - nb + 2, t, na + 2 * nb + 4)
  {
    hide Num, Scale, Pow2, PartlyDivided, Normalizer;
    ghost var s0 := m[..];
    var ta, tb, tp := t, t + na + 2, t + na + 2 + nb;
    var w, k := Normalize(m, ta, tb, a, na, b, nb);
    ghost var s2 := m[..];
    DivideNormalized(m, ta, tb, tp, q, na, nb, Num(s2, ta, na + 2));
    ghost var s3 := m[..];
    RestoreRemainder(m, r, ta, nb, w, k, Num(s0, a, na), Num(s0, b, nb), Num(s3, q, na - nb + 2), Num(s2, tb, nb));
    NumsKept(s3, m[..], r, nb);
  }

  /** Both operands are copied and scaled so that the divisor's top bit is set. */
  method Normalize(m: array<Word>, ta: nat, tb: nat, a: nat, na: nat, b: nat, nb: nat) returns (w: nat, k: nat)
    requires 2 <= nb <= na && a + na <= m.Length && b + nb <= m.Length && tb + nb <= m.Length && tb == ta + na + 2
    requires Disjoint(ta, na + 2 + nb, a, na) && Disjoint(ta, na + 2 + nb, b, nb)
    requires m[b + nb - 1] != 0 || m[b + nb - 2] != 0
    modifies m
    ensures w <= 1 && k < WORD_BITS && Scale(nb) <= 2 * Num(m[..], tb, nb)
    ensures Num(m[..], tb, nb) == old(Num(m[..], b, nb)) * Normalizer(w, k)
    ensures Num(m[..], ta, na + 2) == old(Num(m[..], a, na)) * Normalizer(w, k) < Num(m[..], tb, nb) * Scale(na + 2 - nb)
    ensures OnlyChanged(old(m[..]), m[..], ta, na + 2 + nb)
  {
    hide Num, Scale, Pow2, Normalizer;
    ghost var s0 := m[..];
    w, k := NormalizeDivisor(m, tb, b, nb);
    ghost var s1 := m[..];
    NumsKept(s0, s1, tb, nb);
    NormalizeDividend(m, ta, a, na, w, k);
    NumsKept(s1, m[..], ta, na + 2);
    MulEqual(Num(s1, a, na), Normalizer(w, k), Num(s0, a, na), Normalizer(w, k));
    NumBound(s0, a, na);
    DividendBelow(Num(s0, a, na), Num(s0, b, nb), Normalizer(w, k), Num(s1, tb, nb), na, nb);
  }

  /** The scaled remainder is copied to its place and scaled back. */
  method RestoreRemainder(m: array<Word>, r: nat, ta: nat, nb: nat, w: nat, k: nat, ghost a: nat, ghost b: nat, ghost q: nat, ghost tb: nat)
    requires w <= 1 && k < WORD_BITS && 2 <= nb && ta + nb + 1 <= m.Length && r + nb <= m.Length && Disjoint(r, nb, ta, nb + 1)
    requires m[ta + nb] == 0 && tb == b * Normalizer(w, k)
    requires q * tb + Num(m[..], ta, nb) == a * Normalizer(w, k) && Num(m[..], ta, nb) < tb
    modifies m
    ensures a == q * b + Num(m[..], r, nb) && Num(m[..], r, nb) < b
    ensures OnlyChanged(old(m[..]), m[..], r, nb)
  {
    hide Num, Scale, Pow2, Normalizer;
    ghost var s := m[..];
    RemainderNumbers(s, ta, nb, w, k, a, b, q, tb);
    CopyWords(m, r, ta + w, nb);
    var dropped := ShiftWordsRightByBits(m, r, nb, k);
  }

  /** The scaled dividend is below the scaled divisor shifted to the top of its na + 2 words. */
  lemma DividendBelow(a: nat, b: nat, k: nat, tb: nat, na: nat, nb: nat)
    requires 2 <= nb <= na && a < Scale(na)
    requires tb == b * k && Scale(nb - 2) <= b && 0 < k
    ensures a * k < tb * Scale(na + 2 - nb)
  {
    hide Scale;
    ScaleAdd(nb - 2, na + 2 - nb);
    var top := Scale(na + 2 - nb);
    MulMonotone(Scale(nb - 2), b, top);
    MulMonotone(a + 1, b * top, k);
    assert b * top * k == b * k * top;
  }

  /** Layout of the scaled dividend, the scaled divisor, scratch and quotient. */
  ghost predicate NormalizedOperands(size: nat, ta: nat, tb: nat, tp: nat, q: nat, na: nat, nb: nat) {
    2 <= nb <= na && na % 2 == 0 && nb % 2 == 0 &&
    ta + na + 2 <= size && tb + nb <= size && tp + nb + 2 <= size && q + na - nb + 2 <= size &&
    Disjoint(ta, na + 2, tb, nb) && Disjoint(ta, na + 2, tp, nb + 2) && Disjoint(ta, na + 2, q, na - nb + 2) &&
    Disjoint(tb, nb, tp, nb + 2) && Disjoint(tb, nb, q, na - nb + 2) && Disjoint(tp, nb + 2, q, na - nb + 2)
  }

  lemma EvenStop(i: int, n: nat)
    requires i % 2 == 0 && n % 2 == 0 && i < n <= i + 2
    ensures i + 2 == n
  {
  }

  method DivideNormalized(m: array<Word>, ta: nat, tb: nat, tp: nat, q: nat, na: nat, nb: nat, ghost total: int)
    requires NormalizedOperands(m.Length, ta, tb, tp, q, na, nb)
    requires Num(m[..], ta, na + 2) == total < Num(m[..], tb, nb) * Scale(na + 2 - nb)
    requires Scale(nb) <= 2 * Num(m[..], tb, nb)
    modifies m
    ensures Num(m[..], q, na - nb + 2) * old(Num(m[..], tb, nb)) + Num(m[..], ta, nb) == total
    ensures Num(m[..], ta, nb) < old(Num(m[..], tb, nb)) && m[ta + nb] == 0
    ensures OnlyChanged3(old(m[..]), m[..], ta, na + 2, tp, nb + 2, q, na - nb + 2)
  {
    hide Num, Scale, PartlyDivided, Divisor, Dividing;
    ghost var s0 := m[..];
    var top := StartDivision(m, ta, tb, q, na, nb, total);
    ghost var s1 := m[..];
    var d0, d1 := EstimateDivisor(m, tb, nb);
    DividingStarts(s1, ta, tb, tp, q, na, nb, top, d0, d1, Num(s0, tb, nb), total);
    var i: int := top - 2;
    while i >= nb
      invariant nb <= i + 2 <= na + 2 && i % 2 == 0
      invariant Dividing(s1, m[..], ta, tb, tp, q, na, nb, i + 2, d0, d1, Num(s0, tb, nb), total)
    {
      DividePair(m, ta, tb, tp, q, na, nb, i, d0, d1, s1, Num(s0, tb, nb), total);
      i := i - 2;
    }
    EvenStop(i, nb);
    DividingDone(s0, s1, m[..], ta, tb, tp, q, na, nb, d0, d1, total);
  }

  /** The state of the loop before the words below position e are divided, for the divisor b. */
  ghost predicate Dividing(s1: seq<Word>, s: seq<Word>, ta: nat, tb: nat, tp: nat, q: nat, na: nat, nb: nat, e: nat,
                           d0: Word, d1: Word, b: nat, total: int) {
    NormalizedOperands(|s|, ta, tb, tp, q, na, nb) && nb <= e <= na + 2 && |s1| == |s| &&
    PartlyDivided(s, ta, tb, q, nb, na - nb + 2, e, total) &&
    Num(s, tb, nb) == b && Divisor(d0, d1) == Num(s, tb + nb - 2, 2) + 1 && (e <= na ==> s[ta + e] == 0) &&
    OnlyChanged3(s1, s, ta, na + 2, tp, nb + 2, q, na - nb + 2)
  }

  lemma DividingStarts(s: seq<Word>, ta: nat, tb: nat, tp: nat, q: nat, na: nat, nb: nat, top: nat, d0: Word, d1: Word, b: nat, total: int)
    requires NormalizedOperands(|s|, ta, tb, tp, q, na, nb) && nb <= top <= na + 2 && (top <= na ==> s[ta + top] == 0)
    requires PartlyDivided(s, ta, tb, q, nb, na - nb + 2, top, total)
    requires Num(s, tb, nb) == b && Divisor(d0, d1) == Num(s, tb + nb - 2, 2) + 1
    ensures Dividing(s, s, ta, tb, tp, q, na, nb, top, d0, d1, b, total)
  {
    hide Num, Scale, PartlyDivided, Divisor;
  }

  method DividePair(m: array<Word>, ta: nat, tb: nat, tp: nat, q: nat, na: nat, nb: nat, i: nat, d0: Word, d1: Word,
                    ghost s1: seq<Word>, ghost b: nat, ghost total: int)
    requires nb <= i && i % 2 == 0 && Dividing(s1, m[..], ta, tb, tp, q, na, nb, i + 2, d0, d1, b, total)
    modifies m
    ensures Dividing(s1, m[..], ta, tb, tp, q, na, nb, i, d0, d1, b, total)
  {
    hide Num, Scale, PartlyDivided, Divisor;
    DivideStep(m, ta, tb, tp, q, na, nb, i, d0, d1, total);
  }

  lemma DividingDone(s0: seq<Word>, s1: seq<Word>, s: seq<Word>, ta: nat, tb: nat, tp: nat, q: nat, na: nat, nb: nat, d0: Word, d1: Word, total: int)
    requires |s0| == |s1| && tb + nb <= |s0| && Dividing(s1, s, ta, tb, tp, q, na, nb, nb, d0, d1, Num(s0, tb, nb), total)
    requires OnlyChanged2(s0, s1, ta + na - nb, nb + 1, q + na - nb, 2)
    ensures q + na - nb + 2 <= |s| && ta + nb < |s|
    ensures Num(s, q, na - nb + 2) * Num(s0, tb, nb) + Num(s, ta, nb) == total && Num(s, ta, nb) < Num(s0, tb, nb)
    ensures s[ta + nb] == 0 && OnlyChanged3(s0, s, ta, na + 2, tp, nb + 2, q, na - nb + 2)
  {
    hide Num, Scale, PartlyDivided, Divisor;
    FinishedDivision(s, ta, tb, q, nb, na - nb + 2, total);
    MulEqual(Num(s, q, na - nb + 2), Num(s, tb, nb), Num(s, q, na - nb + 2), Num(s0, tb, nb));
  }

  /** Reduces the top of the dividend below the divisor, or finds that it already is. */
  method StartDivision(m: array<Word>, ta: nat, tb: nat, q: nat, na: nat, nb: nat, ghost total: int) returns (top: nat)
    requires 2 <= nb <= na && na % 2 == 0 && nb % 2 == 0
    requires ta + na + 2 <= m.Length && tb + nb <= m.Length && q + na - nb + 2 <= m.Length
    requires Disjoint(ta, na + 2, tb, nb) && Disjoint(ta, na + 2, q, na - nb + 2) && Disjoint(tb, nb, q, na - nb + 2)
    requires Num(m[..], ta, na + 2) == total < Num(m[..], tb, nb) * Scale(na + 2 - nb)
    requires Scale(nb) <= 2 * Num(m[..], tb, nb)
    modifies m
    ensures top == na || top == na + 2
    ensures PartlyDivided(m[..], ta, tb, q, nb, na - nb + 2, top, total)
    ensures top == na ==> m[ta + na] == 0
    ensures Num(m[..], tb, nb) == old(Num(m[..], tb, nb))
    ensures OnlyChanged2(old(m[..]), m[..], ta + na - nb, nb + 1, q + na - nb, 2)
  {
    hide Num, Scale, PartlyDivided;
    ghost var s0 := m[..];
    if m[ta + na + 1] == 0 && m[ta + na] <= 1 {
      FirstQuotient(m, ta + na - nb, q + na - nb, tb, nb);
      StartBelow(s0, m[..], ta, tb, q, na, nb, total);
      NumsKept2(s0, m[..], ta + na - nb, nb + 1, q + na - nb, 2);
      top := na;
    } else {
      StartAtTop(s0, ta, tb, q, na, nb, total);
      top := na + 2;
    }
  }

  method DivideStep(m: array<Word>, ta: nat, tb: nat, tp: nat, q: nat, na: nat, nb: nat, i: nat, d0: Word, d1: Word, ghost total: int)
    requires NormalizedOperands(m.Length, ta, tb, tp, q, na, nb) && nb <= i <= na && i % 2 == 0
    requires PartlyDivided(m[..], ta, tb, q, nb, na - nb + 2, i + 2, total)
    requires Divisor(d0, d1) == Num(m[..], tb + nb - 2, 2) + 1
    modifies m
    ensures PartlyDivided(m[..], ta, tb, q, nb, na - nb + 2, i, total)
    ensures Num(m[..], tb, nb) == old(Num(m[..], tb, nb))
    ensures Num(m[..], tb + nb - 2, 2) == old(Num(m[..], tb + nb - 2, 2))
    ensures m[ta + i] == 0
    ensures OnlyChanged3(old(m[..]), m[..], ta + i - nb, nb + 2, tp, nb + 2, q + i - nb, 2)
  {
    hide Num, Scale, PartlyDivided, Divisor;
    ghost var s := m[..];
    WindowBelow(s, ta, tb, q, nb, na - nb + 2, i + 2, total);
    DivideWindow(m, ta + i - nb, tp, q + i - nb, tb, nb, d0, d1);
    NumsKept3(s, m[..], ta + i - nb, nb + 2, tp, nb + 2, q + i - nb, 2);
    StepNumbers(s, m[..], ta, tb, q, nb, na - nb + 2, i, total);
  }

  lemma WindowBelow(s: seq<Word>, ta: nat, tb: nat, q: nat, nb: nat, nq: nat, e: nat, total: int)
    requires PartlyDivided(s, ta, tb, q, nb, nq, e, total)
    ensures nb <= e && ta + e <= |s| && tb + nb <= |s|
    ensures Num(s, ta + e - nb, nb) < Num(s, tb, nb)
  {
  }

  lemma FinishedDivision(s: seq<Word>, ta: nat, tb: nat, q: nat, nb: nat, nq: nat, total: int)
    requires PartlyDivided(s, ta, tb, q, nb, nq, nb, total)
    ensures q + nq <= |s| && ta + nb <= |s| && tb + nb <= |s|
    ensures Num(s, q, nq) * Num(s, tb, nb) + Num(s, ta, nb) == total && Num(s, ta, nb) < Num(s, tb, nb)
  {
    assert Scale(0) == 1;
  }

  lemma StepNumbers(s: seq<Word>, s': seq<Word>, ta: nat, tb: nat, q: nat, nb: nat, nq: nat, i: nat, total: int)
    requires |s| == |s'| && nb <= i && PartlyDivided(s, ta, tb, q, nb, nq, i + 2, total)
    requires Num(s', q + i - nb, 2) * Num(s', tb, nb) + Num(s', ta + i - nb, nb) == Num(s, ta + i - nb, nb + 2)
    requires Num(s', ta + i - nb, nb) < Num(s', tb, nb) && Num(s', tb, nb) == Num(s, tb, nb)
    requires Num(s', q + i + 2 - nb, nq + nb - i - 2) == Num(s, q + i + 2 - nb, nq + nb - i - 2)
    requires Num(s', ta, i - nb) == Num(s, ta, i - nb)
    ensures PartlyDivided(s', ta, tb, q, nb, nq, i, total)
  {
    hide Num, Scale;
    NumSplit(s, ta, i - nb, nb + 2);
    NumSplit(s', ta, i - nb, nb);
    NumSplit(s', q + i - nb, 2, nq + nb - i - 2);
    ScaleAdd(i - nb, 2);
    NewPair(Num(s, q + i + 2 - nb, nq + nb - i - 2), Num(s', q + i - nb, 2), Num(s, tb, nb), Num(s', tb, nb), Scale(i - nb), Scale(2),
            Num(s, ta, i - nb), Num(s, ta + i - nb, nb + 2), Num(s', ta + i - nb, nb),
            Num(s', q + i - nb, nq + nb - i), total);
  }

  lemma NewPair(high: int, pair: int, b: int, b': int, f: int, two: int, low: int, w: int, rest: int, q: int, total: int)
    requires b == b' && high * b * (f * two) + (low + f * w) == total
    requires pair * b' + rest == w && q == pair + two * high
    ensures q * b' * f + (low + f * rest) == total
  {
    assert (pair + two * high) * b * f == pair * b * f + high * b * (f * two);
    assert f * (pair * b + rest) == pair * b * f + f * rest;
  }

  lemma StartBelow(s: seq<Word>, s': seq<Word>, ta: nat, tb: nat, q: nat, na: nat, nb: nat, total: int)
    requires |s| == |s'| && 2 <= nb <= na && ta + na + 2 <= |s| && tb + nb <= |s| && q + na - nb + 2 <= |s|
    requires OnlyChanged2(s, s', ta + na - nb, nb + 1, q + na - nb, 2)
    requires Disjoint(ta, na + 2, tb, nb) && Disjoint(ta, na + 2, q, na - nb + 2) && Disjoint(tb, nb, q, na - nb + 2)
    requires Num(s, ta, na + 2) == total && s[ta + na + 1] == 0
    requires Num(s', q + na - nb, 2) * Num(s', tb, nb) + Num(s', ta + na - nb, nb) == Num(s, ta + na - nb, nb + 1)
    requires Num(s', ta + na - nb, nb) < Num(s', tb, nb)
    ensures PartlyDivided(s', ta, tb, q, nb, na - nb + 2, na, total)
  {
    hide Num, Scale;
    NumNext(s, ta, na + 1);
    NumSplit(s, ta, na - nb, nb + 1);
    NumSplit(s', ta, na - nb, nb);
    NumsKept2(s, s', ta + na - nb, nb + 1, q + na - nb, 2);
    FirstPairNumber(Num(s', q + na - nb, 2), Num(s', tb, nb), Scale(na - nb), Num(s', ta, na - nb), Num(s', ta + na - nb, nb),
                    Num(s, ta + na - nb, nb + 1), total);
  }

  lemma FirstPairNumber(q: int, b: int, f: int, low: int, rest: int, w: int, total: int)
    requires q * b + rest == w && low + f * w == total
    ensures q * b * f + (low + f * rest) == total
  {
    assert f * (q * b + rest) == q * b * f + f * rest;
  }

  lemma StartAtTop(s: seq<Word>, ta: nat, tb: nat, q: nat, na: nat, nb: nat, total: int)
    requires 2 <= nb <= na && ta + na + 2 <= |s| && tb + nb <= |s| && q + na - nb + 2 <= |s|
    requires Num(s, ta, na + 2) == total < Num(s, tb, nb) * Scale(na + 2 - nb)
    ensures PartlyDivided(s, ta, tb, q, nb, na - nb + 2, na + 2, total)
  {
    hide Num, Scale;
    NumSplit(s, ta, na + 2 - nb, nb);
    NumShort(s, q + na + 2 - nb);
    TopBelow(Num(s, ta, na + 2 - nb), Num(s, ta + na + 2 - nb, nb), Num(s, tb, nb), Scale(na + 2 - nb));
  }

  lemma TopBelow(low: nat, top: nat, b: nat, scale: nat)
    requires low + scale * top < b * scale
    ensures top < b
  {
    if b <= top { MulMonotone(b, top, scale); MulComm(top, scale); }
  }

  /** The scaled remainder is the remainder times the scale, so undoing the scaling is exact. */
  lemma RemainderNumbers(s: seq<Word>, ta: nat, nb: nat, w: nat, k: nat, a: nat, b: nat, q: nat, tb: nat)
    requires w <= 1 && 0 < nb && ta + nb + 1 <= |s| && s[ta + nb] == 0
    requires tb == b * Normalizer(w, k) && q * tb + Num(s, ta, nb) == a * Normalizer(w, k) && Num(s, ta, nb) < tb
    ensures a == q * b + Num(s, ta + w, nb) / Pow2(k) && Num(s, ta + w, nb) / Pow2(k) < b
  {
    hide Num, Scale, Normalizer, Pow2;
    var n := Normalizer(w, k);
    var rest: int := a - q * b;
    ExactScaling(a, b, q, n, Num(s, ta, nb), tb, rest);
    NumNext(s, ta, nb);
    NumShort(s, ta);
    if w == 1 {
      FirstWord(s, ta, nb + 1);
      UndoWord(Num(s, ta, nb), s[ta], Num(s, ta + 1, nb), rest * Pow2(k), BASE) by { NormalizerValue(w, k); MulAssoc(BASE, Pow2(k), rest); MulComm(n, rest); MulComm(Pow2(k), rest); }
    } else {
      NormalizerValue(w, k);
    }
    DivModUnique(Num(s, ta + w, nb), Pow2(k), rest, 0);
  }

  lemma NormalizerValue(w: nat, k: nat)
    requires w <= 1
    ensures Normalizer(w, k) == if w == 1 then BASE * Pow2(k) else Pow2(k)
  {
    assert Scale(0) == 1 && Scale(1) == BASE;
  }

  lemma ExactScaling(a: nat, b: nat, q: nat, n: nat, scaled: nat, tb: nat, rest: int)
    requires 0 < n && tb == b * n && q * tb + scaled == a * n && scaled < tb && rest == a - q * b
    ensures scaled == rest * n && 0 <= rest < b
  {
    assert q * (b * n) == q * b * n;
    assert rest * n == a * n - q * b * n;
    if rest < 0 { MulMonotone(rest, -1, n); } else if b <= rest { MulMonotone(b, rest, n); }
  }

  lemma UndoWord(scaled: nat, low: Word, high: nat, rest: int, base: nat)
    requires base == BASE && scaled == low + base * high && scaled == base * rest
    ensures high == rest
  {
    MulComm(base, high);
    MulComm(base, rest);
    DivModUnique(scaled, base, high, low);
    DivModUnique(scaled, base, rest, 0);
  }
}
