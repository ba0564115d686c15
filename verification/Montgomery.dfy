/** Inverses modulo a power of the word base, and Montgomery reduction. */
module Montgomery {
  import opened Integers
  import opened Words
  import opened WordArithmetic
  import opened SmallMultiply
  import opened Karatsuba
  import opened HalfProducts
  import opened Modular

  // ---- Newton's iteration ----

  /** If r is an inverse of a up to an error e, then r(2 - ra) is one up to -e * e. */
  lemma NewtonStep(r: int, a: int, e: int)
    requires r * a == 1 + e
    ensures r * (2 - r * a) * a == 1 - e * e
  {
    calc {
      r * (2 - r * a) * a;
      r * a * (2 - r * a);
      (1 + e) * (1 - e);
      1 - e * e;
    }
  }

  function Min(x: nat, y: nat): nat {
    if x < y then x else y
  }

  /** The inverse of an odd word modulo BASE. */
  method AtomicInverseModPower2(a: Word) returns (r: Word)
    requires a % 2 == 1
    ensures r * a % BASE == 1
  {
    r := a % 8;
    ghost var e := OddSquare(a);
    var i := 3;
    while i < WORD_BITS
      invariant 3 <= i
      invariant r * a == 1 + e * Pow2(Min(i, WORD_BITS))
      decreases WORD_BITS - i
    {
      ghost var r0 := r;
      r := r * ((2 - r * a) % BASE) % BASE;
      e := DoublesPrecision(r0, a, e, Min(i, WORD_BITS), Min(2 * i, WORD_BITS), r);
      i := i * 2;
    }
    BaseAtLeast256();
    DivModUnique(r * a, BASE, e, 1);
  }

  lemma OddSquare(a: Word) returns (e: int)
    requires a % 2 == 1
    ensures 0 <= a % 8 < BASE && (a % 8) * a == 1 + e * Pow2(3)
  {
    BaseAtLeast256();
    var r, q := a % 8, a / 8;
    assert Pow2(3) == 8;
    var square := match r case 1 => 0 case 3 => 1 case 5 => 3 case _ => 6;
    e := q * r + square;
    OddDigit(a, r);
    TimesEight(r, q, a, square);
  }

  lemma OddDigit(a: nat, r: nat)
    requires a % 2 == 1 && r == a % 8
    ensures r == 1 || r == 3 || r == 5 || r == 7
  {
    hide *;
    var q, h := a / 8, r / 2;
    assert a == 8 * q + r;
    if r == 2 * h {
      DivModUnique(a, 2, 4 * q + h, 0);
    }
  }

  lemma TimesEight(r: int, q: int, a: int, square: int)
    requires a == 8 * q + r && r * r == 1 + 8 * square
    ensures r * a == 1 + (q * r + square) * 8
  {
    assert r * a == 8 * (q * r) + r * r;
  }

  lemma DoublesPrecision(r0: nat, a: nat, e: int, i: nat, j: nat, r: nat) returns (e': int)
    requires r0 * a == 1 + e * Pow2(i) && i <= j <= 2 * i && j <= WORD_BITS
    requires r == r0 * ((2 - r0 * a) % BASE) % BASE
    ensures r * a == 1 + e' * Pow2(j)
  {
    var u := 2 - r0 * a;
    Mod(u, BASE);
    Times(u % BASE, u, r0, BASE);
    MulComm(u % BASE, r0);
    MulComm(u, r0);
    Mod(r0 * (u % BASE), BASE);
    Transitive(r, r0 * (u % BASE), r0 * u, BASE);
    var k := Witness(r, r0 * u, BASE);
    NewtonStep(r0, a, e * Pow2(i));
    Pow2Add(j, WORD_BITS - j);
    Pow2Add(i, i);
    Pow2Add(j, 2 * i - j);
    var p, q := Pow2(WORD_BITS - j), Pow2(2 * i - j);
    e' := k * a * p - e * e * q;
    ErrorTerms(r0 * u, k, a, Pow2(j), p, q, e, Pow2(i));
  }

  lemma ErrorTerms(x: int, k: int, a: int, s: int, p: int, q: int, e: int, t: int)
    requires x * a == 1 - e * t * (e * t) && t * t == s * q
    ensures (x + k * (s * p)) * a == 1 + (k * a * p - e * e * q) * s
  {
    assert e * t * (e * t) == e * e * (t * t);
    assert e * e * (s * q) == e * e * q * s;
    assert k * (s * p) * a == k * a * p * s;
  }

  // ---- Inverse modulo BASE^n ----

  /** Scratch words used. The source's comment says 3n/2; for n = 2 the code writes a fourth word (FourthScratchWord). */
  function InverseScratch(n: nat): nat {
    if n == 2 then 4 else n + n / 2
  }

  ghost predicate InverseOf(s: seq<Word>, r: nat, t: seq<Word>, a: nat, n: nat)
    requires r + n <= |s| && a + n <= |t|
  {
    Num(s, r, n) * Num(t, a, n) % Scale(n) == 1
  }

  method RecursiveInverseModPower2(m: array<Word>, r: nat, t: nat, a: nat, n: nat)
    requires n >= 2 && PowerOfTwo(n)
    requires r + n <= m.Length && t + InverseScratch(n) <= m.Length && a + n <= m.Length
    requires Disjoint(r, n, t, InverseScratch(n)) && Disjoint(r, n, a, n) && Disjoint(t, InverseScratch(n), a, n)
    requires m[a] % 2 == 1
    modifies m
    ensures InverseOf(m[..], r, old(m[..]), a, n)
    ensures OnlyChanged2(old(m[..]), m[..], r, n, t, InverseScratch(n))
    decreases n
  {
    hide Num, Scale, PowerOfTwo, Product, InverseOf;
    if n == 2 {
      InverseOfTwoWords(m, r, t, a);
    } else {
      HalvesOfPowerOfTwo(n);
      var n2 := n / 2;
      ghost var s0 := m[..];
      RecursiveInverseModPower2(m, r, t, a, n2);
      ghost var s1 := m[..];
      InverseKept(s0, s1, r, t, a, n2);
      NumsKept2(s0, s1, r, n2, t, InverseScratch(n2));
      InverseUpperWords(m, r, t, a, n2);
      NumsKept2(s1, m[..], r + n2, n2, t, 3 * n2);
      InverseCarriesOver(s0, s1, m[..], r, a, n);
    }
  }

  lemma InverseKept(s: seq<Word>, t: seq<Word>, r: nat, w: nat, a: nat, n: nat)
    requires n >= 2 && |s| == |t| && r + n <= |s| && a + 2 * n <= |s|
    requires OnlyChanged2(s, t, r, n, w, InverseScratch(n)) && InverseOf(t, r, s, a, n)
    requires Disjoint(r, n, a, 2 * n) && Disjoint(w, InverseScratch(n), a, 2 * n)
    ensures InverseOf(t, r, t, a, n)
  {
    hide Num, Scale;
    NumsKept2(s, t, r, n, w, InverseScratch(n));
    MulEqual(Num(t, r, n), Num(t, a, n), Num(t, r, n), Num(s, a, n));
  }

  lemma InverseCarriesOver(s0: seq<Word>, s1: seq<Word>, s2: seq<Word>, r: nat, a: nat, n: nat)
    requires |s0| == |s1| == |s2| && r + n <= |s0| && a + n <= |s0| && n % 2 == 0
    requires InverseOf(s2, r, s1, a, n) && SameWords(s1, a, s0, a, n)
    ensures InverseOf(s2, r, s0, a, n)
  {
    hide Num, Scale;
    NumSame(s1, a, s0, a, n);
    MulEqual(Num(s2, r, n), Num(s1, a, n), Num(s2, r, n), Num(s0, a, n));
  }

  method InverseOfTwoWords(m: array<Word>, r: nat, t: nat, a: nat)
    requires r + 2 <= m.Length && t + 4 <= m.Length && a + 2 <= m.Length
    requires Disjoint(r, 2, t, 4) && Disjoint(r, 2, a, 2) && Disjoint(t, 4, a, 2)
    requires m[a] % 2 == 1
    modifies m
    ensures InverseOf(m[..], r, old(m[..]), a, 2)
    ensures OnlyChanged2(old(m[..]), m[..], r, 2, t, 4)
    ensures ScratchFactor(m[..], t, old(m[..]), a, m[t])
  {
    hide Num, Scale, Product, ScratchFactor;
    BaseAtLeast256();
    ghost var s0 := m[..];
    var w := AtomicInverseModPower2(m[a]);
    m[t] := w;
    m[t + 1] := 0;
    ghost var s1 := m[..];
    NumTwo(s1, t);
    NumTwo(s0, a);
    NumTwo(s1, a);
    Multiply2Bottom(m, t + 2, t, a);
    ghost var s2 := m[..];
    TwosComplement(m, t + 2, 2);
    ghost var s3 := m[..];
    var c := Increment(m, t + 2, 2, 2);
    ghost var s4 := m[..];
    NumSame(s1, t, s4, t, 2);
    Multiply2Bottom(m, r, t, t + 2);
    TwoWordNewton(s0, s1, s2, s3, s4, m[..], r, t, a, w, c);
    ScratchHolds(s0, s1, s2, s3, s4, m[..], r, t, a, w, c);
  }

  /** The last two of four scratch words hold the Newton factor 2 - w*A, for the word w that inverts the first word of A. */
  ghost predicate ScratchFactor(s: seq<Word>, t: nat, s0: seq<Word>, a: nat, w: Word) {
    t + 4 <= |s| && a + 2 <= |s0| && w * s0[a] % BASE == 1 &&
    (Num(s, t + 2, 2) + w * Num(s0, a, 2) - 2) % Scale(2) == 0
  }

  lemma ScratchHolds(s0: seq<Word>, s1: seq<Word>, s2: seq<Word>, s3: seq<Word>, s4: seq<Word>, s5: seq<Word>,
                     r: nat, t: nat, a: nat, w: nat, c: int)
    requires |s0| == |s1| == |s2| == |s3| == |s4| == |s5| && r + 2 <= |s0| && t + 4 <= |s0| && a + 2 <= |s0|
    requires w < BASE && w * s0[a] % BASE == 1 && Disjoint(r, 2, t, 4) && OnlyChanged(s4, s5, r, 2)
    requires Num(s1, t, 2) == Two(w, 0) && Num(s1, a, 2) == Num(s0, a, 2)
    requires Num(s2, t + 2, 2) == Product(s1, t, a, 2) % Scale(2)
    requires Num(s3, t + 2, 2) == if Num(s2, t + 2, 2) == 0 then 0 else Scale(2) - Num(s2, t + 2, 2)
    requires Num(s4, t + 2, 2) + c * Scale(2) == Num(s3, t + 2, 2) + 2
    ensures ScratchFactor(s5, t, s0, a, w)
  {
    hide Num, Scale;
    NumsKept(s4, s5, r, 2);
    MulEqual(Num(s1, t, 2), Num(s1, a, 2), w, Num(s0, a, 2));
    NatProduct(w, Num(s0, a, 2));
    NewtonFactor(w * Num(s0, a, 2), Num(s2, t + 2, 2), Num(s3, t + 2, 2), Num(s4, t + 2, 2), c, Scale(2));
  }

  /** What the scratch words hold: the Newton factor 2 - w*A. */
  lemma NewtonFactor(wa: nat, x: int, y: int, z: int, c: int, sq: nat)
    requires 0 < sq && x == wa % sq && y == (if x == 0 then 0 else sq - x) && z + c * sq == y + 2
    ensures (z + wa - 2) % sq == 0
  {
    var k := wa / sq;
    assert wa == k * sq + x;
    var j := if x == 0 then 0 else 1;
    MulComm(j, sq);
    AddMul(k, -c, sq);
    NegMul(c, sq);
    AddMul(k - c, j, sq);
    DivModUnique(z + wa - 2, sq, k - c + j, 0);
  }

  /** For n = 2 the fourth scratch word is written: here it ends as BASE - 1, whatever it held before. */
  method FourthScratchWord(m: array<Word>, r: nat, t: nat, a: nat)
    requires r + 2 <= m.Length && t + 4 <= m.Length && a + 2 <= m.Length
    requires Disjoint(r, 2, t, 4) && Disjoint(r, 2, a, 2) && Disjoint(t, 4, a, 2)
    requires m[a] == 1 && m[a + 1] == 1
    modifies m
    ensures m[t + 3] == BASE - 1
  {
    hide Num, Scale, InverseOf;
    NumTwo(m[..], a);
    InverseOfTwoWords(m, r, t, a);
    BaseAtLeast256();
    NumTwo(m[..], t + 2);
    ScaleTwo();
    OneOne(m[t], m[t + 2], m[t + 3], BASE);
  }

  lemma OneOne(w: nat, low: nat, high: nat, base: nat)
    requires 2 <= base && w < base && low < base && high < base && w * 1 % base == 1
    requires (low + high * base + w * (1 + 1 * base) - 2) % (base * base) == 0
    ensures high == base - 1
  {
    DivModUnique(w, base, 0, w);
    assert w == 1;
    var x := low + high * base + base - 1;
    TopWordBound(low, high, base, base);
    MulMonotone(2, base, base);
    if x < base * base {
      DivModUnique(x, base * base, 0, x);
    } else {
      DivModUnique(x, base * base, 1, x - base * base);
      if high + 2 <= base { MulMonotone(high + 2, base, base); AddMul(high, 2, base); }
    }
  }

  lemma TwoWordNewton(s0: seq<Word>, s1: seq<Word>, s2: seq<Word>, s3: seq<Word>, s4: seq<Word>, s5: seq<Word>,
                      r: nat, t: nat, a: nat, w: nat, c: nat)
    requires |s0| == |s1| == |s2| == |s3| == |s4| == |s5| && r + 2 <= |s0| && t + 4 <= |s0| && a + 2 <= |s0|
    requires w * s0[a] % BASE == 1
    requires Num(s1, t, 2) == Two(w, 0) == Num(s4, t, 2)
    requires Num(s1, a, 2) == Num(s0, a, 2) == Two(s0[a], s0[a + 1])
    requires Num(s2, t + 2, 2) == Product(s1, t, a, 2) % Scale(2)
    requires Num(s3, t + 2, 2) == if Num(s2, t + 2, 2) == 0 then 0 else Scale(2) - Num(s2, t + 2, 2)
    requires Num(s4, t + 2, 2) + c * Scale(2) == Num(s3, t + 2, 2) + 2
    requires Num(s5, r, 2) == Product(s4, t, t + 2, 2) % Scale(2)
    ensures InverseOf(s5, r, s0, a, 2)
  {
    hide Num, Scale;
    NumShort(s0, a);
    NumNext(s0, a, 1);
    DWordRange();
    TwoWordError(w, s0[a], s0[a + 1], BASE);
    NewtonModulo(w, Num(s0, a, 2), (w * s0[a] / BASE + w * s0[a + 1]) * BASE, (w * s0[a] / BASE + w * s0[a + 1]),
                 Num(s2, t + 2, 2), Num(s3, t + 2, 2), Num(s4, t + 2, 2), Num(s5, r, 2), c, BASE, Scale(2));
  }

  lemma TwoWordError(w: int, a0: int, a1: int, base: nat)
    requires 0 < base && w * a0 % base == 1
    ensures w * (a0 + a1 * base) == 1 + (w * a0 / base + w * a1) * base
  {
    assert w * a0 == w * a0 / base * base + 1;
    AddMul(w * a0 / base, w * a1, base);
    assert w * (a0 + a1 * base) == w * a0 + w * a1 * base;
  }

  lemma NewtonModulo(w: int, a: int, error: int, e: int, x: int, y: int, z: int, r: int, c: int, base: nat, sq: nat)
    requires sq == base * base && 2 < sq
    requires error == e * base && w * a == 1 + error
    requires x == w * a % sq && y == (if x == 0 then 0 else sq - x) && z + c * sq == y + 2
    requires r == w * z % sq
    ensures r * a % sq == 1
  {
    Mod(w * a, sq);
    FromWitness(z, 2 - x, sq, (if x == 0 then 0 else 1) - c) by { AddMul(if x == 0 then 0 else 1, -c, sq); NegMul(c, sq); }
    Symmetric(x, w * a, sq);
    NegCongruent(w * a, x, 2, sq);
    Symmetric(2 - w * a, 2 - x, sq);
    Transitive(z, 2 - x, 2 - w * a, sq);
    Times(z, 2 - w * a, w, sq);
    Mod(w * z, sq);
    MulComm(z, w);
    MulComm(2 - w * a, w);
    Transitive(r, w * z, w * (2 - w * a), sq);
    Times(r, w * (2 - w * a), a, sq);
    NewtonStep(w, a, error);
    FromWitness(w * (2 - w * a) * a, 1, sq, -(e * e)) by { SquareError(e, base); }
    Transitive(r * a, w * (2 - w * a) * a, 1, sq);
    SameRemainder(r * a, 1, sq);
    DivModUnique(1, sq, 0, 1);
  }

  lemma SquareError(e: int, base: int)
    ensures 1 - e * base * (e * base) == 1 + (-(e * e)) * (base * base)
  {
    assert e * base * (e * base) == e * e * (base * base);
    NegMul(e * e, base * base);
  }

  lemma NegCongruent(x: int, y: int, z: int, m: nat)
    requires 0 < m && Congruent(x, y, m)
    ensures Congruent(z - x, z - y, m)
  {
    var k := Witness(x, y, m);
    NegMul(k, m);
    FromWitness(z - x, z - y, m, -k);
  }

  /** From the inverse u of the low half: R1 := u * -(high(u * A0) + u * A1). */
  method InverseUpperWords(m: array<Word>, r: nat, t: nat, a: nat, k: nat)
    requires k >= 2 && PowerOfTwo(k) && k % 2 == 0
    requires r + 2 * k <= m.Length && t + 3 * k <= m.Length && a + 2 * k <= m.Length
    requires Disjoint(r, 2 * k, t, 3 * k) && Disjoint(r, 2 * k, a, 2 * k) && Disjoint(t, 3 * k, a, 2 * k)
    requires InverseOf(m[..], r, m[..], a, k)
    modifies m
    ensures InverseOf(m[..], r, old(m[..]), a, 2 * k)
    ensures OnlyChanged2(old(m[..]), m[..], r + k, k, t, 3 * k)
  {
    hide Num, Scale, PowerOfTwo, Product;
    ghost var s0 := m[..];
    m[t] := 1;
    SetWords(m, t + 1, 0, k - 1);
    ghost var s1 := m[..];
    OneNumber(s1, t, k);
    NumsKept(s0, s1, t, k);
    InverseAsProduct(s0, s1, r, a, k);
    RecursiveMultiplyTop(m, r + k, t + k, t, r, a, k);
    ghost var s2 := m[..];
    NumsKept2(s1, s2, r + k, k, t + k, 2 * k);
    RecursiveMultiplyBottom(m, t, t + k, r, a + k, k);
    ghost var s3 := m[..];
    NumsKept2(s2, s3, t, k, t + k, k);
    var c := NegatedSum(m, t, r + k, k);
    ghost var s4 := m[..];
    NumsKept(s3, s4, t, k);
    RecursiveMultiplyBottom(m, r + k, t + k, r, t, k);
    NumsKept2(s4, m[..], r + k, k, t + k, k);
    SameProduct(s1, s0, r, a, k);
    SameProduct(s2, s0, r, a + k, k);
    InverseNumbers(s0, s2, s3, s4, m[..], r, t, a, k, c);
  }

  lemma InverseAsProduct(s0: seq<Word>, s1: seq<Word>, r: nat, a: nat, n: nat)
    requires |s0| == |s1| && r + n <= |s0| && a + n <= |s0| && InverseOf(s0, r, s0, a, n)
    requires Num(s1, r, n) == Num(s0, r, n) && Num(s1, a, n) == Num(s0, a, n)
    ensures Product(s1, r, a, n) % Scale(n) == 1
  {
    hide Num, Scale;
    MulEqual(Num(s1, r, n), Num(s1, a, n), Num(s0, r, n), Num(s0, a, n));
  }

  /** t := -(t + e) modulo BASE^k; c counts the multiples of BASE^k. */
  method NegatedSum(m: array<Word>, t: nat, e: nat, k: nat) returns (ghost c: int)
    requires 0 < k && k % 2 == 0 && t + k <= m.Length && e + k <= m.Length && Disjoint(t, k, e, k)
    modifies m
    ensures Num(m[..], t, k) + c * Scale(k) == -(old(Num(m[..], t, k)) + old(Num(m[..], e, k)))
    ensures OnlyChanged(old(m[..]), m[..], t, k)
  {
    hide Num, Scale;
    ghost var s0 := m[..];
    var carry := Add(m, t, e, t, k);
    ghost var s1 := m[..];
    TwosComplement(m, t, k);
    ghost var dropped: int := carry;
    c := -dropped - (if Num(s1, t, k) == 0 then 0 else 1);
    NegatedCarry(Num(s1, t, k), Num(m[..], t, k), carry, c, Scale(k), Num(s0, e, k) + Num(s0, t, k));
  }

  lemma NegatedCarry(x: int, y: int, carry: int, c: int, scale: int, sum: int)
    requires x + carry * scale == sum && y == (if x == 0 then 0 else scale - x)
    requires c == -carry - (if x == 0 then 0 else 1)
    ensures y + c * scale == -sum
  {
    if x == 0 {
      NegMul(carry, scale);
    } else {
      AddMul(-carry, -1, scale);
      NegMul(carry, scale);
    }
  }

  lemma InverseNumbers(s0: seq<Word>, s2: seq<Word>, s3: seq<Word>, s4: seq<Word>, s5: seq<Word>, r: nat, t: nat, a: nat, k: nat, c: int)
    requires |s0| == |s2| == |s3| == |s4| == |s5| && r + 2 * k <= |s0| && t + k <= |s0| && a + 2 * k <= |s0|
    requires InverseOf(s0, r, s0, a, k) && 1 < Scale(k)
    requires Num(s2, r + k, k) == Product(s0, r, a, k) / Scale(k) == Num(s3, r + k, k)
    requires Num(s3, t, k) == Product(s0, r, a + k, k) % Scale(k)
    requires Num(s4, t, k) + c * Scale(k) == -(Num(s3, t, k) + Num(s3, r + k, k))
    requires Num(s4, r, k) == Num(s0, r, k) == Num(s5, r, k)
    requires Num(s5, r + k, k) == Product(s4, r, t, k) % Scale(k)
    ensures InverseOf(s5, r, s0, a, 2 * k)
  {
    hide Num, Scale;
    NumSplit(s5, r, k, k);
    NumSplit(s0, a, k, k);
    ScaleAdd(k, k);
    InverseIdentity(Num(s0, r, k), Num(s0, a, k), Num(s0, a + k, k), Scale(k), Num(s2, r + k, k), Num(s3, t, k),
                    Num(s4, t, k), c, Num(s5, r + k, k), Num(s5, r, 2 * k), Num(s0, a, 2 * k));
  }

  lemma InverseIdentity(u: nat, a0: nat, a1: nat, scale: nat, e: int, t: int, v: nat, c: int, r1: int, x: int, y: int)
    requires 1 < scale && u * a0 % scale == 1 && e == u * a0 / scale
    requires t == u * a1 % scale && v + c * scale == -(t + e) && r1 == u * v % scale
    requires x == u + scale * r1 && y == a0 + scale * a1
    ensures x * y % (scale * scale) == 1
  {
    Recompose(u * a0, scale);
    Recompose(u * a1, scale);
    Recompose(u * v, scale);
    var k := InverseParts(u, a0, a1, scale, e, t, v, c, r1, u * a1 / scale, u * v / scale, x, y);
    MulMonotone(2, scale, scale);
    DivModUnique(x * y, scale * scale, k, 1);
  }

  lemma InverseParts(u: int, a0: int, a1: int, scale: int, e: int, t: int, v: int, c: int, r1: int, k1: int, k4: int, x: int, y: int)
      returns (k: int)
    requires u * a0 == e * scale + 1 && u * a1 == k1 * scale + t && u * v == k4 * scale + r1 && v + c * scale == -(t + e)
    requires x == u + scale * r1 && y == a0 + scale * a1
    ensures x * y == k * (scale * scale) + 1
  {
    RemainderTerm(u, a0, e, v, k4, r1, scale);
    InverseSum(u, a0, a1, scale, e, t, v, c, r1, k1, v * e - k4 * a0);
    MulEqual(x, y, u + scale * r1, a0 + scale * a1);
    k := k1 - c + (v * e - k4 * a0) + r1 * a1;
  }

  lemma RemainderTerm(u: int, a0: int, e: int, v: int, k4: int, r1: int, scale: int)
    requires u * a0 == e * scale + 1 && u * v == k4 * scale + r1
    ensures r1 * a0 == v + (v * e - k4 * a0) * scale
  {
    assert u * v * a0 == v * (u * a0);
    assert v * (e * scale + 1) == v * e * scale + v;
    assert (k4 * scale + r1) * a0 == k4 * a0 * scale + r1 * a0;
  }

  lemma InverseSum(u: int, a0: int, a1: int, scale: int, e: int, t: int, v: int, c: int, r1: int, k1: int, k: int)
    requires u * a0 == e * scale + 1 && u * a1 == k1 * scale + t && v + c * scale == -(t + e)
    requires r1 * a0 == v + k * scale
    ensures (u + scale * r1) * (a0 + scale * a1) == (k1 - c + k + r1 * a1) * (scale * scale) + 1
  {
    ExpandHalves(u, r1, a0, a1, scale);
    var rest := k1 - c + k;
    assert e + u * a1 + r1 * a0 == rest * scale by { AddMul(k1 - c, k, scale); AddMul(k1, -c, scale); NegMul(c, scale); }
    assert scale * (rest * scale) == rest * (scale * scale);
    assert scale * (u * a1 + r1 * a0) == scale * (rest * scale) - e * scale;
    AddMul(rest, r1 * a1, scale * scale);
  }

  lemma ExpandHalves(u: int, r1: int, a0: int, a1: int, scale: int)
    ensures (u + scale * r1) * (a0 + scale * a1) == u * a0 + scale * (u * a1 + r1 * a0) + r1 * a1 * (scale * scale)
  {
    SchoolTwo(u, r1, a0, a1, scale);
  }

  // ---- Reduction ----

  /** r is the representative in [0, modulus) of x / BASE^n modulo the modulus. */
  ghost predicate Reduced(r: int, x: int, modulus: nat, n: nat) {
    0 <= r < modulus && Congruent(r * Scale(n), x, modulus)
  }

  method MontgomeryReduce(m: array<Word>, r: nat, t: nat, x: nat, p: nat, u: nat, n: nat)
    requires n >= 2 && PowerOfTwo(n) && n % 2 == 0
    requires r + n <= m.Length && t + 3 * n <= m.Length && x + 2 * n <= m.Length && p + n <= m.Length && u + n <= m.Length
    requires Disjoint(r, n, t, 3 * n) && Disjoint(r, n, x, 2 * n) && Disjoint(r, n, p, n) && Disjoint(r, n, u, n)
    requires Disjoint(t, 3 * n, x, 2 * n) && Disjoint(t, 3 * n, p, n) && Disjoint(t, 3 * n, u, n)
    requires InverseOf(m[..], u, m[..], p, n)
    requires Num(m[..], x, 2 * n) < Num(m[..], p, n) * Scale(n)
    modifies m
    ensures Reduced(Num(m[..], r, n), old(Num(m[..], x, 2 * n)), old(Num(m[..], p, n)), n)
    ensures OnlyChanged2(old(m[..]), m[..], r, n, t, 3 * n)
  {
    hide Num, Scale, PowerOfTwo, Product, InverseOf;
    ghost var s0 := m[..];
    NumSplit(s0, x, n, n);
    RecursiveMultiplyBottom(m, r, t, x, u, n);
    ghost var s1 := m[..];
    NumsKept2(s0, s1, r, n, t, n);
    QuotientDigits(s0, s1, r, x, p, u, n);
    RecursiveMultiplyTop(m, t, t + n, x, r, p, n);
    ghost var s2 := m[..];
    NumsKept2(s1, s2, t, n, t + n, 2 * n);
    var borrow := Subtract(m, t, x + n, t, n);
    ghost var s3 := m[..];
    NumsKept(s2, s3, t, n);
    var carry := Add(m, t + n, t, p, n);
    ghost var s4 := m[..];
    NumsKept(s3, s4, t + n, n);
    CopyWords(m, r, if borrow != 0 then t + n else t, n);
    ReducedNumbers(s0, s1, s3, s4, r, t, x, p, n, borrow, carry, Num(s2, t, n));
    assert carry != 0 || borrow == 0;
  }

  /** The multiple of the modulus to take off: its low half is the low half of x. */
  lemma QuotientDigits(s0: seq<Word>, s1: seq<Word>, r: nat, x: nat, p: nat, u: nat, n: nat)
    requires |s0| == |s1| && r + n <= |s0| && x + n <= |s0| && p + n <= |s0| && u + n <= |s0|
    requires InverseOf(s0, u, s0, p, n) && Num(s1, r, n) == Product(s0, x, u, n) % Scale(n)
    requires Num(s1, p, n) == Num(s0, p, n) && Num(s1, x, n) == Num(s0, x, n)
    ensures Num(s1, x, n) == Product(s1, r, p, n) % Scale(n)
  {
    hide Num, Scale;
    NumBound(s0, x, n);
    LowDigitsMatch(Num(s0, x, n), Num(s0, u, n), Num(s0, p, n), Num(s1, r, n), Scale(n));
    MulEqual(Num(s1, r, n), Num(s1, p, n), Num(s1, r, n), Num(s0, p, n));
  }

  lemma LowDigitsMatch(x: nat, u: nat, p: nat, r: int, scale: nat)
    requires x < scale && u * p % scale == 1 && r == x * u % scale
    ensures x == r * p % scale
  {
    Mod(x * u, scale);
    Times(r, x * u, p, scale);
    MulAssoc(x, u, p);
    Mod(u * p, scale);
    Symmetric(1, u * p, scale);
    Times(u * p, 1, x, scale);
    MulComm(u * p, x);
    Transitive(r * p, x * (u * p), x, scale);
    SameRemainder(r * p, x, scale);
    DivModUnique(x, scale, 0, x);
  }

  lemma ReducedNumbers(s0: seq<Word>, s1: seq<Word>, s3: seq<Word>, s4: seq<Word>, r: nat, t: nat, x: nat, p: nat, n: nat,
                       borrow: nat, carry: nat, high: int)
    requires |s0| == |s1| == |s3| == |s4| && r + n <= |s0| && t + 2 * n <= |s0| && x + 2 * n <= |s0| && p + n <= |s0|
    requires Num(s0, x, n) == Product(s1, r, p, n) % Scale(n) && high == Product(s1, r, p, n) / Scale(n)
    requires Num(s1, p, n) == Num(s0, p, n) && borrow <= 1 && carry <= 1
    requires Num(s3, t, n) - borrow * Scale(n) == Num(s0, x + n, n) - high
    requires Num(s4, t + n, n) + carry * Scale(n) == Num(s3, t, n) + Num(s0, p, n)
    requires Num(s4, t, n) == Num(s3, t, n)
    requires Num(s0, x, 2 * n) < Num(s0, p, n) * Scale(n)
    ensures borrow == 1 ==> carry == 1
    ensures Reduced(if borrow == 1 then Num(s4, t + n, n) else Num(s4, t, n), Num(s0, x, 2 * n), Num(s0, p, n), n)
  {
    hide Num, Scale;
    NumSplit(s0, x, n, n);
    NumBound(s0, x, n);
    NumBound(s1, r, n);
    NumBound(s0, p, n);
    NumBound(s3, t, n);
    NumBound(s4, t + n, n);
    MulEqual(Num(s1, r, n), Num(s1, p, n), Num(s1, r, n), Num(s0, p, n));
    Recompose(Product(s1, r, p, n), Scale(n));
    PositiveFactor(Num(s0, x, 2 * n), Num(s0, p, n), Scale(n));
    ReductionIdentity(Num(s1, r, n), Num(s0, p, n), Num(s0, x, n), Num(s0, x + n, n), high, Num(s3, t, n), Num(s4, t + n, n),
                      borrow, carry, Scale(n), Num(s0, x, 2 * n), if borrow == 1 then Num(s4, t + n, n) else Num(s4, t, n));
  }

  lemma ReductionIdentity(r: nat, p: nat, lo: nat, hi: nat, high: int, diff: nat, sum: nat, borrow: nat, carry: nat,
                          scale: nat, x: nat, result: nat)
    requires r < scale && p < scale && lo < scale && diff < scale && sum < scale && borrow <= 1 && carry <= 1
    requires r * p == high * scale + lo && x == lo + scale * hi && 0 < p && x < p * scale
    requires diff - borrow * scale == hi - high && sum + carry * scale == diff + p
    requires result == if borrow == 1 then sum else diff
    ensures borrow == 1 ==> carry == 1
    ensures 0 <= result < p && Congruent(result * scale, x, p)
  {
    QuotientBelow(high, lo, r, p, scale);
    UpperBelow(lo, hi, p, scale, x);
    ProductBit(borrow, scale);
    ProductBit(carry, scale);
    ReducedRange(p, hi, high, diff, sum, borrow, carry, scale, result);
    ResultCongruent(r, p, lo, hi, high, scale, x, result, borrow);
  }

  lemma ProductBit(bit: nat, scale: nat)
    requires bit <= 1
    ensures bit * scale == if bit == 1 then scale else 0
  {
  }

  lemma ReducedRange(p: nat, hi: nat, high: int, diff: nat, sum: nat, borrow: nat, carry: nat, scale: nat, result: nat)
    requires p < scale && diff < scale && sum < scale && borrow <= 1 && carry <= 1 && 0 <= high < p && hi < p
    requires diff - (if borrow == 1 then scale else 0) == hi - high && sum + (if carry == 1 then scale else 0) == diff + p
    requires result == if borrow == 1 then sum else diff
    ensures borrow == 1 ==> carry == 1
    ensures 0 <= result < p && result == hi - high + (if borrow == 1 then p else 0)
  {
  }

  lemma UpperBelow(lo: nat, hi: nat, p: nat, scale: nat, x: nat)
    requires x == lo + scale * hi && x < p * scale
    ensures hi < p
  {
    if p <= hi { MulMonotone(p, hi, scale); }
  }

  lemma ResultCongruent(r: nat, p: nat, lo: nat, hi: nat, high: int, scale: nat, x: nat, result: int, added: int)
    requires 0 < p && r * p == high * scale + lo && x == lo + scale * hi
    requires result == hi - high + added * p
    ensures Congruent(result * scale, x, p)
  {
    assert result * scale == hi * scale - high * scale + added * p * scale;
    assert added * p * scale == added * scale * p;
    assert result * scale == x + (added * scale - r) * p;
    FromWitness(result * scale, x, p, added * scale - r);
  }

  lemma QuotientBelow(q: int, lo: nat, r: nat, p: nat, scale: nat)
    requires q * scale + lo == r * p && r < scale && 0 < p && lo < scale
    ensures 0 <= q < p
  {
    NatProduct(r, p);
    if q < 0 { MulMonotone(q, -1, scale); }
    if p <= q {
      MulMonotone(p, q, scale);
      MulMonotone(r, scale - 1, p);
      MulComm(p, scale);
      AddMul(scale, -1, p);
    }
  }

  /** Two reductions of the same number agree, when some u inverts the modulus modulo BASE^n. */
  lemma ReducedUnique(r: int, r': int, x: int, modulus: nat, n: nat, u: int)
    requires Reduced(r, x, modulus, n) && Reduced(r', x, modulus, n)
    requires u * modulus % Scale(n) == 1
    ensures r == r'
  {
    Symmetric(r' * Scale(n), x, modulus);
    Transitive(r * Scale(n), x, r' * Scale(n), modulus);
    CancelScale(r, r', modulus, Scale(n), u);
    Unique(r, r', modulus);
  }

  lemma CancelScale(x: int, y: int, modulus: nat, scale: nat, u: int)
    requires 0 < modulus && 0 < scale && u * modulus % scale == 1
    requires Congruent(x * scale, y * scale, modulus)
    ensures Congruent(x, y, modulus)
  {
    var k := Witness(x * scale, y * scale, modulus);
    var j := u * modulus / scale;
    assert u * modulus == j * scale + 1;
    var d := x - y;
    CancelIdentity(d, k, j, u, modulus, scale);
    FromWitness(x, y, modulus, d * u - j * k);
  }

  lemma CancelIdentity(d: int, k: int, j: int, u: int, m: int, scale: int)
    requires d * scale == k * m && u * m == j * scale + 1
    ensures d == (d * u - j * k) * m
  {
    assert d * (u * m) == d * u * m;
    assert d * (j * scale + 1) == j * (d * scale) + d;
    assert j * (k * m) == j * k * m;
  }

  // ---- Montgomery representation ----

  function ConvertIn(a: int, modulus: nat, n: nat): int
    requires 0 < modulus
  {
    a * Pow2(WORD_BITS * n) % modulus
  }

  /** Converting in, multiplying and converting out again is multiplication modulo the modulus. */
  lemma MontgomeryRoundTrip(x: int, y: int, product: int, out: int, modulus: nat, n: nat, u: int)
    requires 0 < modulus && u * modulus % Scale(n) == 1
    requires Reduced(product, ConvertIn(x, modulus, n) * ConvertIn(y, modulus, n), modulus, n)
    requires Reduced(out, product, modulus, n)
    ensures out == x * y % modulus
  {
    var s := Scale(n);
    ScaleIsPow2(n);
    MulComm(n, WORD_BITS);
    var cx, cy := ConvertIn(x, modulus, n), ConvertIn(y, modulus, n);
    Mod(x * s, modulus);
    Mod(y * s, modulus);
    Times(cx, x * s, cy, modulus);
    Times(cy, y * s, x * s, modulus);
    MulComm(cy, x * s);
    Transitive(cx * cy, x * s * cy, y * s * (x * s), modulus);
    Transitive(product * s, cx * cy, y * s * (x * s), modulus);
    Regroup(x, y, s);
    CancelScale(product, x * y * s, modulus, s, u);
    Transitive(out * s, product, x * y * s, modulus);
    CancelScale(out, x * y, modulus, s, u);
    Mod(x * y, modulus);
    Symmetric(x * y % modulus, x * y, modulus);
    Transitive(out, x * y, x * y % modulus, modulus);
    Unique(out, x * y % modulus, modulus);
  }

  lemma Regroup(x: int, y: int, s: int)
    ensures y * s * (x * s) == x * y * s * s
  {
  }
}
