/** Multiword long division, two quotient words at a time. */
module Division {
  import opened Integers
  import opened Words
  import opened WordArithmetic
  import opened SmallMultiply
  import opened Modular

  // ---- Three words by two, four words by two ----

  ghost function Three(x0: int, x1: int, x2: int): int {
    x0 + x1 * BASE + x2 * (BASE * BASE)
  }

  /** Takes y0 + (yh + product) * BASE off three words; the top word wraps, but ends in range. */
  method SubtractThree(x0: Word, x1: Word, x2: Word, y0: Word, yh: Word, product: nat) returns (r0: Word, r1: Word, r2: Word)
    requires y0 + (yh + product) * BASE <= Three(x0, x1, x2)
    ensures Three(r0, r1, r2) == Three(x0, x1, x2) - (y0 + (yh + product) * BASE)
  {
    DWordRange();
    NothingCarried();
    SubtractNothing(x0, y0);
    var u := DWordSub(x0, y0);
    BorrowColumn(x0, y0, 0);
    r0 := Lo(u);
    var b := HiAsBorrow(u);
    u := DWordSub(DWordSub(DWordSub(x1, yh), b), product);
    DifferenceWraps3(x1, yh, b, product);
    UpperDifference(x0, x1, x2, y0, yh, product, b, r0, BASE);
    ghost var v: int := x1 as int - yh - b - product + x2 * BASE;
    TopOfDifference(x1 as int - yh - b - product, x2, v, u, BASE);
    r1 := Lo(u);
    r2 := (x2 + Hi(u)) % BASE;
    Collect3(r0, r1, r2, v, BASE);
  }

  lemma SubtractNothing(x: Word, y: Word)
    requires 0 < BASE * BASE
    ensures DWordSub(DWordSub(x, y), 0) == DWordSub(x, y)
  {
    DWordSubTwice(x, y, 0);
  }

  lemma DWordSubTwice(x: nat, y: nat, z: nat)
    requires 0 < BASE * BASE
    ensures DWordSub(DWordSub(x, y), z) == DWordSub(x, y + z)
  {
    ModAdd(x as int - y, -(z as int), BASE * BASE);
  }

  lemma DifferenceWraps3(x: nat, y: nat, b: nat, product: nat)
    requires 0 < BASE * BASE
    ensures DWordSub(DWordSub(DWordSub(x, y), b), product) == DWordSub(x, y + b + product)
  {
    hide DWordSub;
    DWordSubTwice(x, y, b);
    DWordSubTwice(x, y + b, product);
  }

  lemma UpperDifference(x0: int, x1: int, x2: int, y0: int, yh: int, product: int, b: int, r0: int, base: nat)
    requires 0 <= x1 < base && 0 <= x2 < base && 0 <= r0 < base && 0 <= yh && 0 <= product && 0 <= b
    requires r0 - b * base == x0 - y0
    requires y0 + (yh + product) * base <= x0 + x1 * base + x2 * (base * base)
    ensures var v := x1 - yh - b - product + x2 * base;
            0 <= v < base * base &&
            r0 + v * base == x0 + x1 * base + x2 * (base * base) - (y0 + (yh + product) * base)
  {
    var v := x1 - yh - b - product + x2 * base;
    UpperTerms(x1, yh + product, b, x2, base);
    LeadingDigit(v, r0, base);
    TopWordBound(x1, x2, base, base);
  }

  lemma UpperTerms(x1: int, y: int, b: int, x2: int, base: int)
    ensures (x1 - y - b + x2 * base) * base == x1 * base - y * base - b * base + x2 * (base * base)
  {
  }

  lemma LeadingDigit(v: int, r: int, base: int)
    requires 0 <= r < base && 0 <= r + v * base
    ensures 0 <= v
  {
    if v < 0 { MulMonotone(v, -1, base); }
  }

  lemma TopOfDifference(d: int, x2: int, v: int, u: int, base: nat)
    requires 0 < base && v == d + x2 * base && 0 <= v < base * base && u == d % (base * base)
    ensures u % base == v % base && (x2 + u / base) % base == v / base
  {
    var vq, vr := v / base, v % base;
    assert v == vq * base + vr;
    QuotientSmall2(v, vq, vr, base);
    var k := d / (base * base);
    assert d == k * (base * base) + u;
    assert u == (vq - x2 - k * base) * base + vr;
    DivModUnique(u, base, vq - x2 - k * base, vr);
    NegMul(k, base);
    DivModUnique(x2 + u / base, base, -k, vq);
  }

  lemma QuotientSmall2(v: int, q: int, r: nat, base: nat)
    requires v == q * base + r && 0 <= v < base * base && r < base
    ensures 0 <= q < base
  {
    if q < 0 { MulMonotone(q, -1, base); } else if base <= q { MulMonotone(base, q, base); }
  }

  lemma Collect3(r0: int, r1: int, r2: int, v: int, base: nat)
    requires 0 < base && r1 == v % base && r2 == v / base
    ensures r0 + r1 * base + r2 * (base * base) == r0 + v * base
  {
    assert v == r2 * base + r1;
  }

  /** Divides the three words at a by b1:b0 (whose quotient fits a word); the remainder stays at a. */
  method DivideThreeWordsByTwo(m: array<Word>, a: nat, b0: Word, b1: Word) returns (q: Word)
    requires a + 3 <= m.Length
    requires m[a + 2] < b1 || (m[a + 2] == b1 && m[a + 1] < b0)
    modifies m
    ensures Three(old(m[a]), old(m[a + 1]), old(m[a + 2])) == q * Two(b0, b1) + Two(m[a], m[a + 1])
    ensures Two(m[a], m[a + 1]) < Two(b0, b1) && m[a + 2] == 0
    ensures OnlyChanged(old(m[..]), m[..], a, 3)
  {
    ghost var v := Three(m[a], m[a + 1], m[a + 2]);
    DWordRange();
    var divisor := (b1 + 1) % BASE;
    WrapAdd(b1, 1);
    if divisor == 0 {
      q := m[a + 2];
    } else {
      EstimateFits(m[a + 1], m[a + 2], b1);
      q := (m[a + 1] + m[a + 2] * BASE) / divisor;
    }
    EstimateBelow(m[a], m[a + 1], m[a + 2], b0, b1, q);
    var p := WordMul(b0, q);
    HiBound(p, BASE);
    Halves(p);
    EstimateProduct(q, b0, b1, Lo(p), Hi(p), BASE);
    var r0, r1, r2 := SubtractThree(m[a], m[a + 1], m[a + 2], Lo(p), Hi(p), WordMul(b1, q));
    m[a], m[a + 1], m[a + 2] := r0, r1, r2;
    while m[a + 2] != 0 || m[a + 1] > b1 || (m[a + 1] == b1 && m[a] >= b0)
      invariant v == q * Two(b0, b1) + Three(m[a], m[a + 1], m[a + 2])
      invariant OnlyChanged(old(m[..]), m[..], a, 3)
      decreases Three(m[a], m[a + 1], m[a + 2])
    {
      StillAbove(m[a], m[a + 1], m[a + 2], b0, b1);
      QuotientRoom(v, q, Two(b0, b1), Three(m[a], m[a + 1], m[a + 2]), b0, b1, old(m[a]), old(m[a + 1]), old(m[a + 2]));
      var s0, s1, s2 := SubtractThree(m[a], m[a + 1], m[a + 2], b0, b1, 0);
      m[a], m[a + 1], m[a + 2] := s0, s1, s2;
      q := q + 1;
    }
    TopWordDecided(m[a], m[a + 1], b0, b1);
  }

  /** The estimate from B1 + 1 fits a word. */
  lemma EstimateFits(a1: Word, a2: Word, b1: Word)
    requires a2 <= b1 && b1 + 1 < BASE
    ensures 0 <= a1 + a2 * BASE
    ensures 0 <= (a1 + a2 * BASE) / (b1 + 1) < BASE
  {
    var x, d := a1 + a2 * BASE, b1 + 1;
    var q := x / d;
    assert x == q * d + x % d;
    MulMonotone(a2, b1, BASE);
    if q < 0 { MulMonotone(q, -1, d); } else if BASE <= q { MulMonotone(BASE, q, d); }
  }

  /** The estimate never overshoots: q * (B1 + 1) is at most the top two words. */
  lemma EstimateBelow(a0: Word, a1: Word, a2: Word, b0: Word, b1: Word, q: Word)
    requires if b1 + 1 == BASE then q == a2 else q == (a1 + a2 * BASE) / (b1 + 1)
    ensures q * Two(b0, b1) <= Three(a0, a1, a2)
  {
    var x, d: int := a1 + a2 * BASE, b1 + 1;
    if b1 + 1 != BASE {
      Recompose(x, d);
    }
    TopTwoTimes(a0, a1, a2, x, q, d, BASE);
    BelowNext(q, b0, b1, BASE);
  }

  lemma TopTwoTimes(a0: nat, a1: int, a2: int, x: int, q: int, d: int, base: nat)
    requires x == a1 + a2 * base && q * d <= x
    ensures q * d * base <= a0 + a1 * base + a2 * (base * base)
  {
    MulMonotone(q * d, x, base);
    assert x * base == a1 * base + a2 * (base * base);
  }

  lemma BelowNext(q: nat, b0: nat, b1: nat, base: nat)
    requires b0 < base
    ensures q * (b0 + b1 * base) <= q * (b1 + 1) * base
  {
    MulMonotone(b0 + b1 * base, (b1 + 1) * base, q);
  }

  lemma EstimateProduct(q: int, b0: int, b1: int, pl: int, ph: int, base: int)
    requires ph * base + pl == b0 * q
    ensures pl + (ph + b1 * q) * base == q * (b0 + b1 * base)
  {
  }

  lemma StillAbove(a0: Word, a1: Word, a2: Word, b0: Word, b1: Word)
    requires a2 != 0 || a1 > b1 || (a1 == b1 && a0 >= b0)
    ensures b0 + (b1 + 0) * BASE <= Three(a0, a1, a2)
  {
    AboveTwo(a0, a1, a2, b0, b1, BASE);
  }

  lemma AboveTwo(a0: nat, a1: nat, a2: nat, b0: nat, b1: nat, base: nat)
    requires b0 < base && b1 < base && (a2 != 0 || a1 > b1 || (a1 == b1 && a0 >= b0))
    ensures b0 + b1 * base <= a0 + a1 * base + a2 * (base * base)
  {
    TopWordBound(b0, b1, base, base);
    NatProduct(a1, base);
    NatProduct(a2, base * base);
    if a2 != 0 {
      MulMonotone(1, a2, base * base);
    } else if a1 > b1 {
      MulMonotone(b1 + 1, a1, base);
    }
  }

  lemma QuotientRoom(v: int, q: Word, b: int, rest: int, b0: Word, b1: Word, a0: Word, a1: Word, a2: Word)
    requires b == Two(b0, b1) && v == Three(a0, a1, a2) == q * b + rest && b <= rest
    requires a2 < b1 || (a2 == b1 && a1 < b0)
    ensures q + 1 < BASE && 0 < b
    ensures (q + 1) * b + (rest - b) == v
  {
    TopTwo(a0, a1, a2, b0, b1, BASE);
    assert (q + 1) * b == q * b + b;
    if BASE <= q + 1 { MulMonotone(BASE, q + 1, b); }
  }

  lemma TopTwo(a0: nat, a1: nat, a2: nat, b0: nat, b1: nat, base: nat)
    requires a0 < base && a1 < base && (a2 < b1 || (a2 == b1 && a1 < b0))
    ensures a0 + a1 * base + a2 * (base * base) < base * (b0 + b1 * base) && 0 < b0 + b1 * base
  {
    assert a1 + a2 * base < b0 + b1 * base by {
      if a2 < b1 { MulMonotone(a2 + 1, b1, base); }
    }
    MulMonotone(a1 + a2 * base + 1, b0 + b1 * base, base);
  }

  lemma TopWordDecided(a0: Word, a1: Word, b0: Word, b1: Word)
    requires a1 < b1 || (a1 == b1 && a0 < b0)
    ensures Two(a0, a1) < Two(b0, b1)
  {
    TopDecided(a0, a1, b0, b1, BASE);
  }

  lemma TopDecided(a0: nat, a1: nat, b0: nat, b1: nat, base: nat)
    requires a0 < base && (a1 < b1 || (a1 == b1 && a0 < b0))
    ensures a0 + a1 * base < b0 + b1 * base
  {
    if a1 < b1 { MulMonotone(a1 + 1, b1, base); }
  }

  /** The divisor two words denote: zero stands for BASE * BASE. */
  ghost function Divisor(b0: Word, b1: Word): int {
    if b0 == 0 && b1 == 0 then BASE * BASE else Two(b0, b1)
  }

  method DivideFourWordsByTwo(a0: Word, a1: Word, a2: Word, a3: Word, b0: Word, b1: Word) returns (q0: Word, q1: Word)
    requires Two(a2, a3) < Divisor(b0, b1)
    ensures var g := Two(a0, a1) + BASE * BASE * Two(a2, a3);
            Two(q0, q1) * Divisor(b0, b1) <= g < (Two(q0, q1) + 1) * Divisor(b0, b1)
  {
    hide Two, Divisor;
    DivisorIs(a0, a1, a2, a3, b0, b1);
    if b0 == 0 && b1 == 0 {
      return a2, a3;
    }
    q0, q1 := DivideFourByNonzero(a0, a1, a2, a3, b0, b1);
  }

  lemma DivisorIs(a0: Word, a1: Word, a2: Word, a3: Word, b0: Word, b1: Word)
    ensures !(b0 == 0 && b1 == 0) ==> Divisor(b0, b1) == Two(b0, b1)
    ensures b0 == 0 && b1 == 0 ==>
              var g := Two(a0, a1) + BASE * BASE * Two(a2, a3);
              Two(a2, a3) * Divisor(b0, b1) <= g < (Two(a2, a3) + 1) * Divisor(b0, b1)
  {
    hide Two;
    TwoBelow(a0, a1);
    WholeQuotient(Two(a0, a1), Two(a2, a3), BASE * BASE);
  }

  lemma TwoBelow(x0: Word, x1: Word)
    ensures 0 <= Two(x0, x1) < BASE * BASE
  {
    TopWordBound(x0, x1, BASE, BASE);
  }

  method DivideFourByNonzero(a0: Word, a1: Word, a2: Word, a3: Word, b0: Word, b1: Word) returns (q0: Word, q1: Word)
    requires Two(a2, a3) < Two(b0, b1)
    ensures var g := Two(a0, a1) + BASE * BASE * Two(a2, a3);
            Two(q0, q1) * Two(b0, b1) <= g < (Two(q0, q1) + 1) * Two(b0, b1)
  {
    hide Two, Three;
    var t := new Word[4];
    t[0], t[1], t[2], t[3] := a0, a1, a2, a3;
    LexOrder(a2, a3, b0, b1);
    q1 := DivideThreeWordsByTwo(t, 1, b0, b1);
    ghost var r0, r1 := t[1], t[2];
    assert t[0] == a0;
    LexOrder(r0, r1, b0, b1);
    q0 := DivideThreeWordsByTwo(t, 0, b0, b1);
    TwoDigits(a0, a1, a2, a3, q0, q1, r0, r1, Two(b0, b1), t[0], t[1]);
  }

  lemma WholeQuotient(lo: int, hi: int, d: int)
    requires 0 <= lo < d
    ensures hi * d <= lo + d * hi < (hi + 1) * d
  {
  }

  lemma LexOrder(x0: Word, x1: Word, b0: Word, b1: Word)
    requires Two(x0, x1) < Two(b0, b1)
    ensures x1 < b1 || (x1 == b1 && x0 < b0)
  {
    LexNumbers(x0, x1, b0, b1, BASE);
  }

  lemma LexNumbers(x0: nat, x1: nat, b0: nat, b1: nat, base: nat)
    requires b0 < base && x0 + x1 * base < b0 + b1 * base
    ensures x1 < b1 || (x1 == b1 && x0 < b0)
  {
    if b1 < x1 {
      MulMonotone(b1 + 1, x1, base);
      AddMul(b1, 1, base);
    }
  }

  lemma TwoDigits(a0: Word, a1: Word, a2: Word, a3: Word, q0: Word, q1: Word, r0: Word, r1: Word, b: int, s0: Word, s1: Word)
    requires Three(a1, a2, a3) == q1 * b + Two(r0, r1)
    requires Three(a0, r0, r1) == q0 * b + Two(s0, s1) && Two(s0, s1) < b
    ensures var g := Two(a0, a1) + BASE * BASE * Two(a2, a3);
            Two(q0, q1) * b <= g < (Two(q0, q1) + 1) * b
  {
    NatProduct(s1, BASE);
    TwoDigitSum(a0, a1, a2, a3, q0, q1, r0, r1, b, Two(s0, s1), BASE);
  }

  lemma TwoDigitSum(a0: int, a1: int, a2: int, a3: int, q0: int, q1: int, r0: int, r1: int, b: int, rest: int, base: int)
    requires a1 + a2 * base + a3 * (base * base) == q1 * b + (r0 + r1 * base)
    requires a0 + r0 * base + r1 * (base * base) == q0 * b + rest && 0 <= rest < b
    ensures var g := a0 + a1 * base + base * base * (a2 + a3 * base);
            (q0 + q1 * base) * b <= g < (q0 + q1 * base + 1) * b
  {
    var g := a0 + a1 * base + base * base * (a2 + a3 * base);
    assert base * (a1 + a2 * base + a3 * (base * base)) == g - a0;
    assert base * (q1 * b + (r0 + r1 * base)) == q1 * base * b + (r0 * base + r1 * (base * base));
    assert g == q1 * base * b + q0 * b + rest;
    assert (q0 + q1 * base) * b == q0 * b + q1 * base * b;
    assert (q0 + q1 * base + 1) * b == (q0 + q1 * base) * b + b;
  }

  // ---- Quotient times divisor ----

  /** The k-th even pair of b has been multiplied into place. */
  ghost predicate BlockDone(s: seq<Word>, t: nat, q: nat, b: nat, k: int) {
    0 <= k && t + 4 * k + 4 <= |s| && q + 2 <= |s| && b + 4 * k + 2 <= |s| &&
    Num(s, t + 4 * k, 4) == Num(s, q, 2) * Num(s, b + 4 * k, 2)
  }

  /** The two-word quotient times the first i words of the divisor. */
  ghost function QuotientTimes(s: seq<Word>, q: nat, b: nat, i: nat): int
    requires q + 2 <= |s| && b + i <= |s|
  {
    Num(s, q, 2) * Num(s, b, i)
  }

  ghost predicate QuotientOperands(size: nat, t: nat, q: nat, b: nat, n: nat) {
    0 < n && n % 2 == 0 && t + n + 2 <= size && q + 2 <= size && b + n <= size &&
    Disjoint(t, n + 2, q, 2) && Disjoint(t, n + 2, b, n)
  }

  /** t := q * b for a two-word q: every other pair of words first, the rest added in between. */
  method QuotientProduct(m: array<Word>, t: nat, q: nat, b: nat, n: nat)
    requires QuotientOperands(m.Length, t, q, b, n)
    modifies m
    ensures Num(m[..], t, n + 2) == QuotientTimes(old(m[..]), q, b, n)
    ensures OnlyChanged(old(m[..]), m[..], t, n + 2)
  {
    hide Num, Scale, Product;
    ghost var s0 := m[..];
    NumTwo(s0, q);
    if m[q + 1] != 0 {
      m[t + n], m[t + n + 1] := 0, 0;
      EvenPairs(m, t, q, b, n);
      ghost var s1 := m[..];
      NumsKept(s0, s1, t, n + 2);
      OddPairs(m, t, q, b, n);
      MulEqual(Num(s0, q, 2), Num(s0, b, n), Num(s1, q, 2), Num(s1, b, n));
    } else {
      var carry := LinearMultiply(m, t, b, m[q], n);
      ghost var s1 := m[..];
      m[t + n] := carry;
      m[t + n + 1] := 0;
      NumSame(m[..], t, s1, t, n);
      NumNext(m[..], t, n);
      NumNext(m[..], t, n + 1);
      MulComm(Num(s0, b, n), s0[q]);
    }
  }

  method EvenPairs(m: array<Word>, t: nat, q: nat, b: nat, n: nat)
    requires QuotientOperands(m.Length, t, q, b, n)
    modifies m
    ensures forall k {:trigger BlockDone(m[..], t, q, b, k)} :: 0 <= 4 * k < n ==> BlockDone(m[..], t, q, b, k)
    ensures OnlyChanged(old(m[..]), m[..], t, n + 2)
    ensures n % 4 == 0 ==> m[t + n] == old(m[t + n]) && m[t + n + 1] == old(m[t + n + 1])
  {
    hide Num, Scale, BlockDone, Product;
    ghost var s0 := m[..];
    var i := 0;
    ghost var done: nat := 0;
    ghost var half := n / 2;
    assert n == 2 * half;
    while i < n
      invariant 0 <= i <= n + 2 && i == 4 * done
      invariant OnlyChanged(s0, m[..], t, i)
      invariant forall k {:trigger BlockDone(m[..], t, q, b, k)} :: 0 <= k < done ==> BlockDone(m[..], t, q, b, k)
    {
      ghost var s := m[..];
      EvenBelow(i, n, done, half);
      Multiply2(m, t + i, q, b + i);
      NewBlock(s, m[..], t, q, b, done, i);
      BlocksKept(s, m[..], t, q, b, done, i);
      i, done := i + 4, done + 1;
    }
    if n % 4 == 0 { ExactEnd(n, i, done); }
  }

  lemma ExactEnd(n: nat, i: nat, done: nat)
    requires n % 4 == 0 && i == 4 * done && n <= i <= n + 2
    ensures i == n
  {
  }

  lemma EvenBelow(i: int, n: int, done: int, half: int)
    requires i == 4 * done && n == 2 * half && i < n
    ensures i + 2 <= n
  {
  }

  lemma NewBlock(s: seq<Word>, s': seq<Word>, t: nat, q: nat, b: nat, k: nat, i: nat)
    requires i == 4 * k && OnlyChanged(s, s', t + i, 4) && t + i + 4 <= |s| && q + 2 <= |s| && b + i + 2 <= |s|
    requires Disjoint(t + i, 4, q, 2) && Disjoint(t + i, 4, b + i, 2)
    requires Num(s', t + i, 4) == Product(s, q, b + i, 2)
    ensures BlockDone(s', t, q, b, k)
  {
    hide Num, Scale;
    NumsKept(s, s', t + i, 4);
    MulEqual(Num(s, q, 2), Num(s, b + i, 2), Num(s', q, 2), Num(s', b + i, 2));
  }

  lemma BlocksKept(s: seq<Word>, s': seq<Word>, t: nat, q: nat, b: nat, done: nat, i: nat)
    requires i == 4 * done && OnlyChanged(s, s', t + i, 4)
    requires Disjoint(t + i, 4, q, 2) && Disjoint(t + i, 4, b, i)
    requires forall k {:trigger BlockDone(s, t, q, b, k)} :: 0 <= k < done ==> BlockDone(s, t, q, b, k)
    ensures forall k {:trigger BlockDone(s', t, q, b, k)} :: 0 <= k < done ==> BlockDone(s', t, q, b, k)
  {
    hide Num, Scale;
    NumsKept(s, s', t + i, 4);
    forall k {:trigger BlockDone(s', t, q, b, k)} | 0 <= k < done
      ensures BlockDone(s', t, q, b, k)
    {
      assert BlockDone(s, t, q, b, k);
      MulEqual(Num(s, q, 2), Num(s, b + 4 * k, 2), Num(s', q, 2), Num(s', b + 4 * k, 2));
    }
  }

  method OddPairs(m: array<Word>, t: nat, q: nat, b: nat, n: nat)
    requires QuotientOperands(m.Length, t, q, b, n)
    requires forall k {:trigger BlockDone(m[..], t, q, b, k)} :: 0 <= 4 * k < n ==> BlockDone(m[..], t, q, b, k)
    requires n % 4 == 0 ==> m[t + n] == 0 && m[t + n + 1] == 0
    modifies m
    ensures Num(m[..], t, n + 2) == QuotientTimes(old(m[..]), q, b, n)
    ensures OnlyChanged(old(m[..]), m[..], t, n + 2)
  {
    hide Num, Scale, BlockDone, Product, QuotientTimes;
    ghost var s0 := m[..];
    var i := 2;
    ghost var done: nat := 0;
    ghost var half := n / 2;
    assert n == 2 * half;
    FirstPair(s0, t, q, b);
    while i < n
      invariant 2 <= i <= n + 2 && i == 4 * done + 2
      invariant OnlyChanged(s0, m[..], t, if i <= n then i + 2 else n + 2)
      invariant i <= n ==> Num(m[..], t, i + 2) == QuotientTimes(s0, q, b, i)
      invariant n < i ==> Num(m[..], t, n + 2) == QuotientTimes(s0, q, b, n)
    {
      OddBelow(i, n, done, half);
      done := done + 1;
      assert i + 2 < n ==> BlockDone(s0, t, q, b, done);
      OddPair(m, t, q, b, n, i, s0, done);
      i := i + 4;
    }
  }

  lemma OddBelow(i: int, n: int, done: int, half: int)
    requires i == 4 * done + 2 && n == 2 * half && i < n
    ensures i + 2 <= n && (i + 2 < n ==> i + 4 <= n) && (i + 2 == n ==> n % 4 == 0)
  {
  }

  lemma FirstPair(s: seq<Word>, t: nat, q: nat, b: nat)
    requires BlockDone(s, t, q, b, 0)
    ensures Num(s, t, 4) == QuotientTimes(s, q, b, 2)
  {
  }

  method OddPair(m: array<Word>, t: nat, q: nat, b: nat, n: nat, i: nat, ghost s0: seq<Word>, ghost k: nat)
    requires QuotientOperands(m.Length, t, q, b, n) && 2 <= i < n && i + 2 == 4 * k
    requires OnlyChanged(s0, m[..], t, i + 2)
    requires i + 2 < n ==> BlockDone(s0, t, q, b, k)
    requires i + 2 == n ==> s0[t + n] == 0 && s0[t + n + 1] == 0
    requires Num(m[..], t, i + 2) == QuotientTimes(s0, q, b, i)
    modifies m
    ensures OnlyChanged(s0, m[..], t, if i + 2 < n then i + 6 else n + 2)
    ensures i + 2 < n ==> Num(m[..], t, i + 6) == QuotientTimes(s0, q, b, i + 4)
    ensures i + 2 == n ==> Num(m[..], t, n + 2) == QuotientTimes(s0, q, b, n)
  {
    hide Num, Scale, BlockDone, Product, QuotientTimes;
    ghost var s := m[..];
    var carry := Multiply2Add(m, t + i, q, b + i);
    OddSum(s0, s, m[..], t, q, b, n, i, carry, k);
    if carry != 0 {
      CarryIntoWords(m, t, i + 4, QuotientTimes(s0, q, b, i + 4));
    }
  }

  lemma OddSum(s0: seq<Word>, s: seq<Word>, s1: seq<Word>, t: nat, q: nat, b: nat, n: nat, i: nat, carry: nat, k: nat)
    requires QuotientOperands(|s0|, t, q, b, n) && 2 <= i < n && i + 2 == 4 * k && carry <= 1
    requires OnlyChanged(s0, s, t, i + 2) && OnlyChanged(s, s1, t + i, 4)
    requires i + 2 < n ==> BlockDone(s0, t, q, b, k)
    requires i + 2 == n ==> s0[t + n] == 0 && s0[t + n + 1] == 0
    requires Num(s, t, i + 2) == QuotientTimes(s0, q, b, i)
    requires Num(s1, t + i, 4) + carry * Scale(4) == Num(s, t + i, 4) + Product(s, q, b + i, 2)
    ensures i + 2 <= n && (i + 2 < n ==> i + 4 <= n)
    ensures i + 2 < n ==> Num(s1, t, i + 6) + (if carry == 1 then Scale(i + 4) else 0) == QuotientTimes(s0, q, b, i + 4) < Scale(i + 6)
    ensures i + 2 == n ==> carry == 0 && Num(s1, t, n + 2) == QuotientTimes(s0, q, b, n)
  {
    hide Num, Scale, BlockDone, Product, QuotientTimes;
    NumsKept(s0, s, t, i + 2);
    NumsKept(s, s1, t + i, 4);
    if i + 2 == n {
      LastPair(s0, s, s1, t, q, b, n, carry);
    } else {
      MiddlePair(s0, s, s1, t, q, b, i, carry, k);
    }
  }

  /** One more at word i, rippling into word i + 1. */
  method CarryIntoWords(m: array<Word>, t: nat, i: nat, ghost total: int)
    requires t + i + 2 <= m.Length && Num(m[..], t, i + 2) + Scale(i) == total < Scale(i + 2)
    modifies m
    ensures Num(m[..], t, i + 2) == total
    ensures OnlyChanged(old(m[..]), m[..], t + i, 2)
  {
    hide Num, Scale;
    ghost var s1 := m[..];
    m[t + i] := (m[t + i] + 1) % BASE;
    m[t + i + 1] := (m[t + i + 1] + (if m[t + i] == 0 then 1 else 0)) % BASE;
    WrapAdd(s1[t + i], 1);
    WrapAdd(s1[t + i + 1], 1);
    WrapAdd(s1[t + i + 1], 0);
    CarryIntoPair(s1, m[..], t, i, total);
  }

  lemma LastPair(s0: seq<Word>, s: seq<Word>, s1: seq<Word>, t: nat, q: nat, b: nat, n: nat, carry: nat)
    requires QuotientOperands(|s0|, t, q, b, n) && |s0| == |s| == |s1| && 4 <= n
    requires Num(s, t, n) == QuotientTimes(s0, q, b, n - 2)
    requires s[t + n] == 0 && s[t + n + 1] == 0
    requires Num(s, q, 2) == Num(s0, q, 2) && Num(s, b + n - 2, 2) == Num(s0, b + n - 2, 2)
    requires Num(s1, t + n - 2, 4) + carry * Scale(4) == Num(s, t + n - 2, 4) + Product(s, q, b + n - 2, 2)
    requires Num(s1, t, n - 2) == Num(s, t, n - 2)
    ensures carry == 0 && Num(s1, t, n + 2) == QuotientTimes(s0, q, b, n)
  {
    hide Num, Scale;
    MulEqual(Num(s, q, 2), Num(s, b + n - 2, 2), Num(s0, q, 2), Num(s0, b + n - 2, 2));
    NumNext(s, t, n);
    NumNext(s, t, n + 1);
    NumSplit(s, t, n - 2, 4);
    NumSplit(s1, t, n - 2, 4);
    NumSplit(s0, b, n - 2, 2);
    ScaleAdd(n - 2, 4);
    PairAdded(Num(s0, q, 2), Num(s0, b, n - 2), Num(s0, b + n - 2, 2), Num(s0, b, n), Num(s, t, n - 2), Num(s, t + n - 2, 4),
              Num(s1, t + n - 2, 4), carry, Scale(n - 2), Scale(4));
    NumBound(s0, q, 2);
    NumBound(s0, b, n);
    ScaleAdd(2, n);
    ProductBelow(Num(s0, q, 2), Num(s0, b, n), Scale(2), Scale(n));
    NoCarry(Num(s1, t, n + 2), carry, Scale(n + 2));
  }

  lemma PairAdded(q: int, b0: int, b1: int, b: int, low: int, x: int, y: int, carry: int, scale: int, four: int)
    requires low + scale * x == q * b0 && y + carry * four == x + q * b1 && b == b0 + scale * b1
    ensures low + scale * y + carry * (scale * four) == q * b
  {
    assert scale * (y + carry * four) == scale * y + carry * (scale * four);
    assert scale * (x + q * b1) == scale * x + q * (scale * b1);
  }

  /** A pair between two pairs that are in place: what is still missing is the carry, two words up. */
  lemma MiddlePair(s0: seq<Word>, s: seq<Word>, s1: seq<Word>, t: nat, q: nat, b: nat, i: nat, carry: nat, k: nat)
    requires |s0| == |s| == |s1| && 2 <= i && i + 2 == 4 * k && t + i + 6 <= |s0| && q + 2 <= |s0| && b + i + 4 <= |s0|
    requires Num(s, t, i + 2) == QuotientTimes(s0, q, b, i)
    requires BlockDone(s0, t, q, b, k) && Num(s, t + i + 2, 4) == Num(s0, t + i + 2, 4)
    requires Num(s, q, 2) == Num(s0, q, 2) && Num(s, b + i, 2) == Num(s0, b + i, 2)
    requires Num(s1, t + i, 4) + carry * Scale(4) == Num(s, t + i, 4) + Product(s, q, b + i, 2)
    requires Num(s1, t, i) == Num(s, t, i) && Num(s1, t + i + 4, 2) == Num(s, t + i + 4, 2)
    ensures carry <= 1 ==> Num(s1, t, i + 6) + (if carry == 1 then Scale(i + 4) else 0) == QuotientTimes(s0, q, b, i + 4)
    ensures QuotientTimes(s0, q, b, i + 4) < Scale(i + 6)
  {
    hide Num, Scale;
    MulEqual(Num(s, q, 2), Num(s, b + i, 2), Num(s0, q, 2), Num(s0, b + i, 2));
    NumSplit(s, t, i + 2, 4);
    NumSplit(s, t, i + 4, 2);
    NumSplit(s, t, i, 4);
    NumSplit(s1, t, i + 4, 2);
    NumSplit(s1, t, i, 4);
    NumSplit(s0, b, i, 2);
    NumSplit(s0, b, i + 2, 2);
    ScaleAdd(i, 4);
    ScaleAdd(i, 2);
    NumBound(s0, q, 2);
    NumBound(s0, b, i + 4);
    ScaleAdd(2, i + 4);
    ProductBelow(Num(s0, q, 2), Num(s0, b, i + 4), Scale(2), Scale(i + 4));
    MiddleSum(Num(s0, q, 2), Num(s0, b, i), Num(s0, b + i, 2), Num(s0, b + i + 2, 2), Num(s0, b, i + 4),
              Num(s, t, i), Num(s, t + i, 4), Num(s1, t + i, 4), carry, Num(s, t + i + 4, 2), Scale(i), Scale(i + 2), Scale(4), Scale(i + 4));
  }

  lemma MiddleSum(q: int, b0: int, b1: int, b2: int, b: int, low: int, x: int, y: int, carry: int, high: int,
                  si: int, si2: int, four: int, si4: int)
    requires si4 == si * four && b == b0 + si * b1 + si2 * b2
    requires low + si * x + si4 * high == q * b0 + si2 * (q * b2)
    requires y + carry * four == x + q * b1
    ensures low + si * y + si4 * high + carry * si4 == q * b
  {
    assert si * (y + carry * four) == si * y + carry * si4;
    assert si * (x + q * b1) == si * x + q * (si * b1);
    assert q * b == q * b0 + q * (si * b1) + q * (si2 * b2);
  }

  lemma CarryIntoPair(s: seq<Word>, s': seq<Word>, t: nat, i: nat, total: int)
    requires |s| == |s'| && t + i + 2 <= |s| && OnlyChanged(s, s', t + i, 2)
    requires Num(s, t, i + 2) + Scale(i) == total < Scale(i + 2)
    requires s'[t + i] == if s[t + i] + 1 < BASE then s[t + i] + 1 else 0
    requires s'[t + i + 1] == if s'[t + i] != 0 then s[t + i + 1] else if s[t + i + 1] + 1 < BASE then s[t + i + 1] + 1 else 0
    ensures Num(s', t, i + 2) == total
  {
    hide Num;
    NumSame(s', t, s, t, i);
    NumNext(s, t, i);
    NumNext(s, t, i + 1);
    NumNext(s', t, i);
    NumNext(s', t, i + 1);
    PairCarry(Num(s, t, i), s[t + i], s[t + i + 1], s'[t + i], s'[t + i + 1], Scale(i), BASE);
  }

  lemma PairCarry(low: nat, x: nat, y: nat, x': nat, y': nat, scale: nat, base: nat)
    requires 0 < scale && x < base && y < base
    requires low + x * scale + y * (base * scale) + scale < base * (base * scale)
    requires x' == if x + 1 < base then x + 1 else 0
    requires y' == if x' != 0 then y else if y + 1 < base then y + 1 else 0
    ensures low + x' * scale + y' * (base * scale) == low + x * scale + y * (base * scale) + scale
  {
    var next := base * scale;
    AddMul(x, 1, scale);
    AddMul(y, 1, next);
    MulEqual(x', scale, if x + 1 < base then x + 1 else 0, scale);
    MulEqual(y', next, if x' != 0 then y else if y + 1 < base then y + 1 else 0, next);
  }

  // ---- Correcting an estimated quotient ----

  /** The estimate q * b is at most r, close to it, and the true quotient fits two words. */
  ghost predicate Underestimates(s: seq<Word>, r: nat, q: nat, b: nat, n: nat)
    requires r + n + 2 <= |s| && q + 2 <= |s| && b + n <= |s|
  {
    Num(s, q, 2) * Num(s, b, n) <= Num(s, r, n + 2) &&
    Num(s, r, n + 2) - Num(s, q, 2) * Num(s, b, n) < 2 * Scale(n) &&
    Num(s, r, n + 2) < Num(s, b, n) * Scale(2)
  }

  ghost predicate EstimateOperands(size: nat, r: nat, t: nat, q: nat, b: nat, n: nat) {
    QuotientOperands(size, t, q, b, n) && r + n + 2 <= size &&
    Disjoint(r, n + 2, t, n + 2) && Disjoint(r, n + 2, q, 2) && Disjoint(r, n + 2, b, n) && Disjoint(q, 2, b, n)
  }

  method CorrectQuotientEstimate(m: array<Word>, r: nat, t: nat, q: nat, b: nat, n: nat)
    requires EstimateOperands(m.Length, r, t, q, b, n) && Underestimates(m[..], r, q, b, n)
    modifies m
    ensures Num(m[..], q, 2) * Num(m[..], b, n) + Num(m[..], r, n) == old(Num(m[..], r, n + 2))
    ensures Num(m[..], r, n) < Num(m[..], b, n)
    ensures m[r + n] == 0 && m[r + n + 1] == 0
    ensures OnlyChanged3(old(m[..]), m[..], r, n + 2, t, n + 2, q, 2)
  {
    hide Num, Scale;
    ghost var s0 := m[..];
    QuotientProduct(m, t, q, b, n);
    ghost var s1 := m[..];
    NumsKept(s0, s1, t, n + 2);
    var borrow := Subtract(m, r, r, t, n + 2);
    ghost var s2 := m[..];
    NumsKept(s1, s2, r, n + 2);
    FirstRemainder(s0, s1, s2, r, t, q, b, n, borrow);
    assert borrow == 0 && m[r + n + 1] == 0;
    CorrectionLoop(m, r, q, b, n, Num(s0, r, n + 2));
    NumsKept2(s2, m[..], r, n + 1, q, 2);
    MulEqual(Num(s0, q, 2), Num(s0, b, n), Num(s2, q, 2), Num(s2, b, n));
  }

  lemma FirstRemainder(s0: seq<Word>, s1: seq<Word>, s2: seq<Word>, r: nat, t: nat, q: nat, b: nat, n: nat, borrow: nat)
    requires |s0| == |s1| == |s2| && EstimateOperands(|s0|, r, t, q, b, n) && Underestimates(s0, r, q, b, n)
    requires Num(s1, t, n + 2) == Num(s0, q, 2) * Num(s0, b, n) && Num(s1, r, n + 2) == Num(s0, r, n + 2)
    requires Num(s2, r, n + 2) - borrow * Scale(n + 2) == Num(s1, r, n + 2) - Num(s1, t, n + 2)
    requires Num(s2, q, 2) == Num(s0, q, 2) && Num(s2, b, n) == Num(s0, b, n)
    ensures borrow == 0 && s2[r + n + 1] == 0
    ensures Num(s2, r, n + 2) == Num(s2, r, n + 1)
    ensures Num(s2, q, 2) * Num(s2, b, n) + Num(s2, r, n + 1) == Num(s0, r, n + 2)
    ensures Num(s0, r, n + 2) < Num(s2, b, n) * Scale(2)
  {
    hide Num, Scale;
    NumBound(s2, r, n + 2);
    NumNext(s2, r, n + 1);
    NumNext(s2, r, n);
    MulEqual(Num(s2, q, 2), Num(s2, b, n), Num(s0, q, 2), Num(s0, b, n));
    MulEqual(Num(s2, b, n), Scale(2), Num(s0, b, n), Scale(2));
    NumBound(s0, r, n + 2);
    NoTopWord(Num(s2, r, n + 2), borrow, Scale(n + 2), Num(s0, r, n + 2) - Num(s0, q, 2) * Num(s0, b, n),
              Num(s2, r, n + 1), s2[r + n + 1], Scale(n), BASE);
  }

  lemma NoTopWord(x: nat, borrow: nat, big: nat, v: int, low: nat, top: nat, scale: nat, base: nat)
    requires x - borrow * big == v && x < big && 0 <= v < 2 * scale && big == base * (base * scale) && 2 <= base
    requires x == low + top * (base * scale)
    ensures borrow == 0 && top == 0
  {
    MulMonotone(2, base, scale);
    if 1 <= borrow { MulMonotone(1, borrow, big); }
    if 1 <= top { MulMonotone(1, top, base * scale); }
  }

  /** Takes the divisor off the n + 1 words at r, counting at q, until less than the divisor is left. */
  method CorrectionLoop(m: array<Word>, r: nat, q: nat, b: nat, n: nat, ghost total: nat)
    requires 0 < n && n % 2 == 0 && r + n + 1 <= m.Length && q + 2 <= m.Length && b + n <= m.Length
    requires Disjoint(r, n + 1, q, 2) && Disjoint(r, n + 1, b, n) && Disjoint(q, 2, b, n)
    requires Num(m[..], q, 2) * Num(m[..], b, n) + Num(m[..], r, n + 1) == total < Num(m[..], b, n) * Scale(2)
    modifies m
    ensures Num(m[..], q, 2) * Num(m[..], b, n) + Num(m[..], r, n) == total
    ensures Num(m[..], r, n) < Num(m[..], b, n) && m[r + n] == 0
    ensures OnlyChanged2(old(m[..]), m[..], r, n + 1, q, 2)
  {
    hide Num, Scale;
    ghost var s0 := m[..];
    var order := Compare(m, r, b, n);
    while m[r + n] != 0 || order >= 0
      invariant OnlyChanged2(s0, m[..], r, n + 1, q, 2)
      invariant Num(m[..], b, n) == Num(s0, b, n)
      invariant order == Sign(Num(m[..], r, n) - Num(m[..], b, n))
      invariant Num(m[..], q, 2) * Num(s0, b, n) + Num(m[..], r, n + 1) == total
      decreases Num(m[..], r, n + 1)
    {
      CorrectionStep(m, r, q, b, n, total);
      order := Compare(m, r, b, n);
    }
    NumNext(m[..], r, n);
    MulEqual(Num(m[..], q, 2), Num(s0, b, n), Num(m[..], q, 2), Num(m[..], b, n));
  }

  method CorrectionStep(m: array<Word>, r: nat, q: nat, b: nat, n: nat, ghost total: nat)
    requires 0 < n && n % 2 == 0 && r + n + 1 <= m.Length && q + 2 <= m.Length && b + n <= m.Length
    requires Disjoint(r, n + 1, q, 2) && Disjoint(r, n + 1, b, n) && Disjoint(q, 2, b, n)
    requires Num(m[..], q, 2) * Num(m[..], b, n) + Num(m[..], r, n + 1) == total < Num(m[..], b, n) * Scale(2)
    requires m[r + n] != 0 || Num(m[..], r, n) >= Num(m[..], b, n)
    modifies m
    ensures Num(m[..], b, n) == old(Num(m[..], b, n))
    ensures Num(m[..], q, 2) * old(Num(m[..], b, n)) + Num(m[..], r, n + 1) == total
    ensures Num(m[..], r, n + 1) < old(Num(m[..], r, n + 1))
    ensures OnlyChanged2(old(m[..]), m[..], r, n + 1, q, 2)
  {
    hide Num, Scale;
    ghost var s0 := m[..];
    NumNext(s0, r, n);
    NumBound(s0, b, n);
    AtLeastDivisor(Num(s0, r, n), s0[r + n], Num(s0, b, n), Scale(n));
    RoomForOne(Num(s0, q, 2), Num(s0, b, n), Num(s0, r, n + 1), total, Scale(2));
    var borrow := Subtract(m, r, r, b, n);
    ghost var s1 := m[..];
    NumsKept(s0, s1, r, n);
    NumBound(s1, r, n);
    BorrowCovered(Num(s0, r, n), s0[r + n], Num(s0, b, n), Num(s1, r, n), borrow, Scale(n));
    m[r + n] := (m[r + n] - borrow) % BASE;
    WrapSub(s1[r + n], borrow);
    ghost var s2 := m[..];
    NumsKept(s1, s2, r + n, 1);
    NumNext(s2, r, n);
    m[q] := (m[q] + 1) % BASE;
    m[q + 1] := (m[q + 1] + (if m[q] == 0 then 1 else 0)) % BASE;
    WrapAdd(s2[q], 1);
    WrapAdd(s2[q + 1], 1);
    WrapAdd(s2[q + 1], 0);
    NumsKept(s2, m[..], q, 2);
    Incremented(s2, m[..], q);
    assert Num(m[..], q, 2) == Num(s0, q, 2) + 1;
    AddMul(Num(s0, q, 2), 1, Num(s0, b, n));
    MulEqual(Num(m[..], q, 2), Num(s0, b, n), Num(s0, q, 2) + 1, Num(s0, b, n));
  }

  lemma Incremented(s: seq<Word>, t: seq<Word>, q: nat)
    requires |s| == |t| && q + 2 <= |s| && OnlyChanged(s, t, q, 2) && Num(s, q, 2) + 1 < Scale(2)
    requires t[q] == if s[q] + 1 < BASE then s[q] + 1 else 0
    requires t[q + 1] == if t[q] != 0 then s[q + 1] else if s[q + 1] + 1 < BASE then s[q + 1] + 1 else 0
    ensures Num(t, q, 2) == Num(s, q, 2) + 1
  {
    hide Num, Scale;
    NumShort(s, q);
    CarryIntoPair(s, t, q, 0, Num(s, q, 2) + 1);
  }

  lemma AtLeastDivisor(low: nat, top: nat, b: nat, scale: nat)
    requires b < scale && (top != 0 || low >= b)
    ensures low + top * scale >= b
  {
    if top != 0 { MulMonotone(1, top, scale); }
  }

  lemma RoomForOne(q: nat, b: nat, rest: nat, total: nat, scale: nat)
    requires q * b + rest == total < b * scale && b <= rest
    ensures q + 1 < scale && 0 < b
  {
    PositiveFactor(total, b, scale);
    assert (q + 1) * b == q * b + b;
    if scale <= q + 1 { MulMonotone(scale, q + 1, b); MulComm(scale, b); }
  }

  lemma BorrowCovered(low: nat, top: nat, b: nat, low': nat, borrow: nat, scale: nat)
    requires low' - borrow * scale == low - b && borrow <= 1 && low' < scale && b < scale
    requires low + top * scale >= b
    ensures borrow <= top
    ensures low' + (top - borrow) * scale == low + top * scale - b
  {
    if borrow == 1 && top == 0 { MulEqual(top, scale, 0, scale); }
    AddMul(top, -(borrow as int), scale);
    NegMul(borrow, scale);
  }
}
