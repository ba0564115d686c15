/** DivideByPower2Mod and Integer::InverseMod. */
module ModularInverse {
  import opened Integers
  import opened Words
  import opened WordArithmetic
  import opened Shifts
  import opened Modular
  import opened AlmostInverses

  // ---- Division by a power of two ----

  /** One halving modulo an odd number: the number, or the number plus the modulus, shifted right. */
  method HalveModulo(m: array<Word>, r: nat, p: nat, n: nat)
    requires n >= 2 && n % 2 == 0 && r + n <= m.Length && p + n <= m.Length && Disjoint(r, n, p, n)
    requires m[p] % 2 == 1 && Num(m[..], r, n) < Num(m[..], p, n)
    modifies m
    ensures 2 * Num(m[..], r, n) == old(Num(m[..], r, n)) || 2 * Num(m[..], r, n) == old(Num(m[..], r, n)) + old(Num(m[..], p, n))
    ensures Num(m[..], r, n) < old(Num(m[..], p, n))
    ensures OnlyChanged(old(m[..]), m[..], r, n)
  {
    hide Num, Scale, Pow2;
    OddNumber(m[..], r, n);
    if m[r] % 2 == 0 {
      var dropped := ShiftWordsRightByBits(m, r, n, 1);
      PowOne();
    } else {
      HalveSum(m, r, p, n);
    }
  }

  lemma PowOne()
    ensures Pow2(1) == 2
  {
    assert Pow2(0) == 1;
  }

  /** An odd number plus the odd modulus, halved; the carry of the sum becomes the top bit. */
  method HalveSum(m: array<Word>, r: nat, p: nat, n: nat)
    requires n >= 2 && n % 2 == 0 && r + n <= m.Length && p + n <= m.Length && Disjoint(r, n, p, n)
    requires m[p] % 2 == 1 && m[r] % 2 == 1
    modifies m
    ensures 2 * Num(m[..], r, n) == old(Num(m[..], r, n)) + old(Num(m[..], p, n))
    ensures OnlyChanged(old(m[..]), m[..], r, n)
  {
    hide Num, Scale, Pow2;
    ghost var s := m[..];
    OddNumber(s, r, n);
    OddNumber(s, p, n);
    ghost var total := Num(s, r, n) + Num(s, p, n);
    var carry := Add(m, r, r, p, n);
    ghost var s1 := m[..];
    var dropped := ShiftWordsRightByBits(m, r, n, 1);
    PowOne();
    OddSumEven(Num(s, r, n), Num(s, p, n));
    ReturnCarry(m, r, n, carry, s1, total);
  }

  lemma OddSumEven(x: nat, y: nat)
    requires x % 2 == 1 && y % 2 == 1
    ensures (x + y) % 2 == 0
  {
  }

  /** The carry of a sum that was halved comes back as the top bit. */
  method ReturnCarry(m: array<Word>, r: nat, n: nat, carry: nat, ghost s: seq<Word>, ghost total: nat)
    requires 0 < n && r + n <= m.Length == |s| && carry <= 1 && total % 2 == 0
    requires Num(m[..], r, n) == Num(s, r, n) / 2 && Num(s, r, n) + carry * Scale(n) == total
    modifies m
    ensures 2 * Num(m[..], r, n) == total
    ensures OnlyChanged(old(m[..]), m[..], r, n)
  {
    hide Num, Scale, Pow2;
    ghost var s2 := m[..];
    HalfSum(s, s2, r, n, carry, total);
    m[r + n - 1] := (m[r + n - 1] + carry * Pow2(WORD_BITS - 1)) % BASE;
    CarryReturned(s, s2, m[..], r, n, carry, total);
  }

  /** After the shift the top bit is free for the carry. */
  lemma HalfSum(s: seq<Word>, t: seq<Word>, r: nat, n: nat, carry: nat, total: nat)
    requires 0 < n && r + n <= |s| && r + n <= |t| && carry <= 1
    requires Num(t, r, n) == Num(s, r, n) / 2 && Num(s, r, n) + carry * Scale(n) == total
    ensures 0 <= carry * Pow2(WORD_BITS - 1) && t[r + n - 1] + carry * Pow2(WORD_BITS - 1) < BASE
    ensures (t[r + n - 1] + carry * Pow2(WORD_BITS - 1)) % BASE == t[r + n - 1] + carry * Pow2(WORD_BITS - 1)
  {
    hide Num;
    NumBound(s, r, n);
    NumNext(t, r, n - 1);
    var half := Pow2(WORD_BITS - 1);
    assert BASE == 2 * half;
    assert Scale(n) == BASE * Scale(n - 1);
    MulAssoc(2, half, Scale(n - 1));
    if half <= t[r + n - 1] { MulMonotone(half, t[r + n - 1], Scale(n - 1)); }
    DivModUnique(t[r + n - 1] + carry * half, BASE, 0, t[r + n - 1] + carry * half);
  }

  lemma CarryReturned(s: seq<Word>, t: seq<Word>, u: seq<Word>, r: nat, n: nat, carry: nat, total: nat)
    requires 0 < n && r + n <= |s| && |s| == |t| && carry <= 1 && total % 2 == 0
    requires Num(t, r, n) == Num(s, r, n) / 2 && Num(s, r, n) + carry * Scale(n) == total
    requires OnlyChanged(t, u, r + n - 1, 1) && u[r + n - 1] == t[r + n - 1] + carry * Pow2(WORD_BITS - 1)
    ensures 2 * Num(u, r, n) == total
  {
    hide Num, Scale, Pow2;
    NumNext(t, r, n - 1);
    NumNext(u, r, n - 1);
    NumSame(u, r, t, r, n - 1);
    WordHalf();
    TopBitValue(Num(t, r, n - 1), t[r + n - 1], carry, Pow2(WORD_BITS - 1), Scale(n - 1), BASE);
    EvenHalf(Num(s, r, n), carry * (Pow2(WORD_BITS - 1) * Scale(n - 1)), total);
  }

  lemma WordHalf()
    ensures BASE == 2 * Pow2(WORD_BITS - 1)
  {
  }

  lemma TopBitValue(low: int, top: int, carry: int, half: int, scale: int, base: int)
    requires base == 2 * half
    ensures low + (top + carry * half) * scale == low + top * scale + carry * (half * scale)
    ensures carry * (base * scale) == 2 * (carry * (half * scale))
  {
    assert (top + carry * half) * scale == top * scale + carry * (half * scale);
    assert base * scale == 2 * (half * scale);
  }

  lemma EvenHalf(x: nat, h: nat, total: nat)
    requires x + 2 * h == total && total % 2 == 0
    ensures 2 * (x / 2 + h) == total
  {
  }

  method DivideByPower2Mod(m: array<Word>, r: nat, a: nat, k: nat, p: nat, n: nat)
    requires n >= 2 && n % 2 == 0 && r + n <= m.Length && a + n <= m.Length && p + n <= m.Length && Disjoint(r, n, p, n)
    requires r <= a || a + n <= r
    requires m[p] % 2 == 1 && Num(m[..], a, n) < Num(m[..], p, n)
    modifies m
    ensures Num(m[..], r, n) < old(Num(m[..], p, n))
    ensures Congruent(Num(m[..], r, n) * Pow2(k), old(Num(m[..], a, n)), old(Num(m[..], p, n)))
    ensures OnlyChanged(old(m[..]), m[..], r, n)
  {
    hide Num, Scale;
    ghost var s := m[..];
    ghost var input, modulus := Num(s, a, n), Num(s, p, n);
    CopyWords(m, r, a, n);
    NumsKept(s, m[..], r, n);
    assert Pow2(0) == 1;
    FromWitness(input * Pow2(0), input, modulus, 0);
    var left, done := k, 0;
    while left > 0
      invariant left + done == k
      invariant OnlyChanged(s, m[..], r, n)
      invariant Num(m[..], p, n) == modulus && Num(m[..], r, n) < modulus
      invariant Congruent(Num(m[..], r, n) * Pow2(done), input, modulus)
    {
      left := left - 1;
      ghost var before := m[..];
      HalveModulo(m, r, p, n);
      NumsKept(before, m[..], r, n);
      HalvingCongruent(Num(before, r, n), Num(m[..], r, n), done, input, modulus);
      done := done + 1;
    }
  }

  lemma HalvingCongruent(x: nat, y: nat, done: nat, input: int, p: nat)
    requires 2 * y == x || 2 * y == x + p
    requires Congruent(x * Pow2(done), input, p)
    ensures Congruent(y * Pow2(done + 1), input, p)
  {
    Pow2Next(done);
    hide Congruent, Pow2;
    var t := Pow2(done);
    var k := if 2 * y == x then 0 else t;
    DoubledAgain(x, y, p, t, k);
    FromWitness(y * Pow2(done + 1), x * t, p, k);
    Transitive(y * Pow2(done + 1), x * t, input, p);
  }

  lemma DoubledAgain(x: int, y: int, p: int, t: int, k: int)
    requires (2 * y == x && k == 0) || (2 * y == x + p && k == t)
    ensures y * (2 * t) == x * t + k * p
  {
    TwiceEither(y, t);
    AddMul(x, p, t);
    MulComm(p, t);
  }

  lemma TwiceEither(y: int, t: int)
    ensures y * (2 * t) == 2 * y * t
  {
  }

  // ---- Multiplication by a power of two ----

  /** One doubling modulo p: shifted left, less the modulus when the result is not below it. */
  method DoubleModulo(m: array<Word>, r: nat, p: nat, n: nat)
    requires n >= 2 && n % 2 == 0 && r + n <= m.Length && p + n <= m.Length && Disjoint(r, n, p, n)
    requires Num(m[..], r, n) < Num(m[..], p, n)
    modifies m
    ensures Num(m[..], r, n) == 2 * old(Num(m[..], r, n)) || Num(m[..], r, n) == 2 * old(Num(m[..], r, n)) - old(Num(m[..], p, n))
    ensures Num(m[..], r, n) < old(Num(m[..], p, n))
    ensures OnlyChanged(old(m[..]), m[..], r, n)
  {
    hide Num, Scale, Pow2;
    ghost var s := m[..];
    PowOne();
    var carry := ShiftWordsLeftByBits(m, r, n, 1);
    ghost var s1 := m[..];
    NumsKept(s, s1, r, n);
    NumBound(s1, r, n);
    NumBound(s1, p, n);
    ghost var borrow := 0;
    var excess := carry != 0;
    if !excess {
      var c := Compare(m, r, p, n);
      excess := c >= 0;
    }
    if excess {
      var b := Subtract(m, r, r, p, n);
      borrow := b;
    }
    NumBound(m[..], r, n);
    DoubledBelow(Num(s, r, n), Num(s, p, n), Num(s1, r, n), carry, Num(m[..], r, n), borrow, Scale(n), excess);
  }

  lemma DoubledBelow(x: nat, p: nat, low: nat, carry: nat, y: nat, borrow: nat, scale: nat, excess: bool)
    requires x < p && p < scale && low < scale && y < scale && carry <= 1 && borrow <= 1
    requires low + carry * scale == 2 * x
    requires excess <==> carry != 0 || low >= p
    requires if excess then y - borrow * scale == low - p else y == low
    ensures y == 2 * x || y == 2 * x - p
    ensures y < p
  {
  }

  method MultiplyByPower2Mod(m: array<Word>, r: nat, a: nat, k: nat, p: nat, n: nat)
    requires n >= 2 && n % 2 == 0 && r + n <= m.Length && a + n <= m.Length && p + n <= m.Length && Disjoint(r, n, p, n)
    requires r <= a || a + n <= r
    requires Num(m[..], a, n) < Num(m[..], p, n)
    modifies m
    ensures Num(m[..], r, n) == old(Num(m[..], a, n)) * Pow2(k) % old(Num(m[..], p, n))
    ensures OnlyChanged(old(m[..]), m[..], r, n)
  {
    hide Num, Scale;
    ghost var s := m[..];
    ghost var input, modulus := Num(s, a, n), Num(s, p, n);
    CopyWords(m, r, a, n);
    NumsKept(s, m[..], r, n);
    assert Pow2(0) == 1;
    FromWitness(input, input * Pow2(0), modulus, 0);
    var left, done := k, 0;
    while left > 0
      invariant left + done == k
      invariant OnlyChanged(s, m[..], r, n)
      invariant Num(m[..], p, n) == modulus && Num(m[..], r, n) < modulus
      invariant Congruent(Num(m[..], r, n), input * Pow2(done), modulus)
    {
      left := left - 1;
      ghost var before := m[..];
      DoubleModulo(m, r, p, n);
      NumsKept(before, m[..], r, n);
      DoublingCongruent(Num(before, r, n), Num(m[..], r, n), done, input, modulus);
      done := done + 1;
    }
    RemainderIs(Num(m[..], r, n), input * Pow2(k), modulus);
  }

  lemma DoublingCongruent(x: nat, y: nat, done: nat, input: int, p: nat)
    requires y == 2 * x || y == 2 * x - p
    requires Congruent(x, input * Pow2(done), p)
    ensures Congruent(y, input * Pow2(done + 1), p)
  {
    hide Congruent;
    DoubleOut(input, done + 1);
    Times(x, input * Pow2(done), 2, p);
    FromWitness(y, x * 2, p, if y == 2 * x then 0 else -1);
    Transitive(y, x * 2, input * Pow2(done + 1), p);
  }

  lemma RemainderIs(x: int, y: int, p: nat)
    requires 0 <= x < p && Congruent(x, y, p)
    ensures x == y % p
  {
    Mod(y, p);
    Symmetric(y % p, y, p);
    Transitive(x, y, y % p, p);
    Unique(x, y % p, p);
  }

  // ---- Numbers in and out of memory ----

  /** Words an Integer of this value is rounded up to: a power of two, at least 2. */
  method RoundupSize(x: nat) returns (n: nat)
    ensures n >= 2 && n % 2 == 0 && x < Scale(n)
  {
    n := 2;
    var capacity := BASE * BASE;
    DWordRange();
    assert Scale(1) == BASE && Scale(2) == BASE * Scale(1);
    while capacity <= x
      invariant n >= 2 && n % 2 == 0 && capacity == Scale(n) && 1 < capacity
      decreases x - capacity
    {
      ScaleAdd(n, n);
      MulMonotone(2, capacity, capacity);
      capacity := capacity * capacity;
      n := 2 * n;
    }
  }

  method StoreNumber(m: array<Word>, p: nat, n: nat, x: nat)
    requires p + n <= m.Length && x < Scale(n)
    modifies m
    ensures Num(m[..], p, n) == x
    ensures OnlyChanged(old(m[..]), m[..], p, n)
  {
    hide Num, Scale;
    ghost var s := m[..];
    var rest: nat := x;
    NumShort(s, p);
    Whole(x);
    for i := 0 to n
      invariant OnlyChanged(s, m[..], p, i)
      invariant Num(m[..], p, i) + rest * Scale(i) == x
    {
      ghost var before := m[..];
      Halves(rest);
      m[p + i] := Lo(rest);
      NumsKept(before, m[..], p + i, 1);
      NumNext(m[..], p, i);
      DigitStep(Num(before, p, i), rest, Lo(rest), Hi(rest), Scale(i), BASE);
      rest := Hi(rest);
    }
    NoCarry(Num(m[..], p, n), rest, Scale(n));
  }

  lemma Whole(x: int)
    ensures x * Scale(0) == x
  {
  }

  lemma DigitStep(num: int, rest: int, lo: int, hi: int, scale: int, base: int)
    requires rest == hi * base + lo
    ensures num + lo * scale + hi * (base * scale) == num + rest * scale
  {
    assert (hi * base + lo) * scale == hi * (base * scale) + lo * scale;
  }

  method LoadNumber(m: array<Word>, p: nat, n: nat) returns (x: nat)
    requires p + n <= m.Length
    ensures x == Num(m[..], p, n)
  {
    hide Num, Scale;
    x := 0;
    var i := n;
    NumShort(m[..], p + n);
    while i > 0
      invariant 0 <= i <= n && x == Num(m[..], p + i, n - i)
    {
      i := i - 1;
      FirstWord(m[..], p + i, n - i);
      NatProduct(BASE, x);
      x := m[p + i] + BASE * x;
    }
  }

  // ---- The inverse ----

  ghost predicate HaveCommonDivisor(a: int, p: nat) {
    exists d: nat :: d > 1 && Divides(d, a) && Divides(d, p)
  }

  ghost predicate Divides(d: nat, x: int)
    requires d > 0
  {
    x % d == 0
  }

  /** r is the inverse of a modulo p, or 0 where there is none. */
  ghost predicate InverseOrZero(r: nat, a: int, p: nat) {
    0 <= r < p &&
    if HaveCommonDivisor(a, p) then r == 0 else p == 1 || Congruent(r * a, 1, p)
  }

  /** The odd case: the input is below the odd modulus. */
  method InverseModOdd(a: nat, p: nat) returns (r: nat)
    requires p % 2 == 1 && a < p
    ensures InverseOrZero(r, a, p)
  {
    hide Num, Scale, InverseOrZero;
    var n := RoundupSize(p);
    var m := new Word[7 * n];
    StoreNumber(m, 0, n, p);
    ghost var s1 := m[..];
    StoreNumber(m, n, n, a);
    ghost var s2 := m[..];
    NumsKept(s1, s2, n, n);
    OddNumber(s2, 0, n);
    ghost var divisor;
    var k;
    k, divisor := AlmostInverse(m, 2 * n, 3 * n, n, n, 0, n);
    ghost var s3 := m[..];
    NumsKept2(s2, s3, 2 * n, n, 3 * n, 4 * n);
    OddNumber(s3, 0, n);
    DivideByPower2Mod(m, 2 * n, 2 * n, k, 0, n);
    r := LoadNumber(m, 2 * n, n);
    OddCase(a, p, Num(s3, 2 * n, n), k, divisor, r);
  }

  lemma OddCase(a: nat, p: nat, x: nat, k: nat, divisor: nat, r: nat)
    requires p % 2 == 1 && a < p && r < p
    requires if divisor == 0 then 0 < x < p && Congruent(x * a, Pow2(k), p)
             else x == 0 && k == 0 && a % divisor == 0 && p % divisor == 0 && (divisor > 1 || p == 1)
    requires Congruent(r * Pow2(k), x, p)
    ensures InverseOrZero(r, a, p)
  {
    if divisor == 0 {
      Times(r * Pow2(k), x, a, p);
      Transitive(r * Pow2(k) * a, x * a, Pow2(k), p);
      Reassociate3(r, Pow2(k), a);
      assert 1 * Pow2(k) == Pow2(k);
      CancelPow2(r * a, 1, k, p);
      InverseExcludesDivisor(r, a, p);
    } else if p > 1 {
      assert Divides(divisor, a) && Divides(divisor, p);
      assert Pow2(0) == 1;
      Unique(r, 0, p);
    }
  }

  /** Powers of two cancel modulo an odd number. */
  lemma {:induction false} CancelPow2(x: int, y: int, k: nat, p: nat)
    requires p % 2 == 1 && Congruent(x * Pow2(k), y * Pow2(k), p)
    ensures Congruent(x, y, p)
  {
    if k == 0 {
      assert x * Pow2(0) == x && y * Pow2(0) == y;
    } else {
      var j := Witness(x * Pow2(k), y * Pow2(k), p);
      DoubleOut(x, k);
      DoubleOut(y, k);
      HalfMultiple(x * Pow2(k - 1) - y * Pow2(k - 1), j, p);
      FromWitness(x * Pow2(k - 1), y * Pow2(k - 1), p, j / 2);
      CancelPow2(x, y, k - 1, p);
    }
  }

  lemma DoubleOut(x: int, k: nat)
    requires 0 < k
    ensures x * Pow2(k) == 2 * (x * Pow2(k - 1))
  {
    assert x * (2 * Pow2(k - 1)) == 2 * (x * Pow2(k - 1));
  }

  /** An inverse and a common divisor cannot both exist. */
  lemma InverseExcludesDivisor(r: int, a: int, p: nat)
    requires Congruent(r * a, 1, p)
    ensures !HaveCommonDivisor(a, p)
  {
    if HaveCommonDivisor(a, p) {
      var d: nat :| d > 1 && Divides(d, a) && Divides(d, p);
      var k := Witness(r * a, 1, p);
      var x, y := a / d, p / d;
      assert a == x * d && p == y * d;
      assert r * (x * d) == r * x * d && k * (y * d) == k * y * d;
      AddMul(r * x, -(k * y), d);
      NegMul(k * y, d);
      var q := r * x - k * y;
      assert q * d == 1;
      if q <= 0 { MulMonotone(q, 0, d); } else { MulMonotone(1, q, d); }
    }
  }

  datatype InverseResult = Inverse(value: nat) | DivideByZero

  /** Integer::InverseMod: reduces, then either runs the odd algorithm or inverts the modulus modulo the input. */
  method InverseMod(a: int, p: nat) returns (r: InverseResult)
    ensures r.DivideByZero? <==> p == 0
    ensures p > 0 ==> InverseOrZero(r.value, a, p)
    decreases p, if 0 <= a < p then 0 else 1
  {
    hide InverseOrZero;
    if a < 0 || a >= p {
      if p == 0 {
        return DivideByZero;
      }
      r := InverseMod(a % p, p);
      RemainderInverse(r.value, a, p);
    } else if p % 2 == 0 {
      if a % 2 == 0 {
        BothEven(a, p);
        return Inverse(0);
      }
      if a == 1 {
        InverseOfOne(p);
        return Inverse(1);
      }
      var u := InverseMod(p, a);
      FromSwapped(u.value, a, p);
      r := if u.value == 0 then Inverse(0) else Inverse((p * (a - u.value) + 1) / a);
    } else {
      var x := InverseModOdd(a, p);
      r := Inverse(x);
    }
  }

  lemma RemainderInverse(r: nat, a: int, p: nat)
    requires 0 < p && InverseOrZero(r, a % p, p)
    ensures InverseOrZero(r, a, p)
  {
    Mod(a, p);
    SameDivisors(a, p);
    if p > 1 && !HaveCommonDivisor(a, p) {
      Times(a % p, a, r, p);
      MulComm(a % p, r);
      MulComm(a, r);
      Symmetric(r * (a % p), r * a, p);
      Transitive(r * a, r * (a % p), 1, p);
    }
  }

  lemma SameDivisors(a: int, p: nat)
    requires 0 < p
    ensures HaveCommonDivisor(a, p) <==> HaveCommonDivisor(a % p, p)
  {
    var q := a / p;
    assert a == q * p + a % p;
    if HaveCommonDivisor(a, p) {
      SharedDivisor(a, a % p, p, q);
    }
    if HaveCommonDivisor(a % p, p) {
      NegMul(q, p);
      SharedDivisor(a % p, a, p, -q);
    }
  }

  lemma SharedDivisor(x: int, y: int, p: nat, q: int)
    requires HaveCommonDivisor(x, p) && x == y + q * p
    ensures HaveCommonDivisor(y, p)
  {
    var d: nat :| d > 1 && Divides(d, x) && Divides(d, p);
    var z := p / d;
    assert p == z * d;
    assert q * (z * d) == q * z * d;
    DividesDifference(d, x, q * p, q * z);
    assert Divides(d, y);
  }

  lemma DividesDifference(d: nat, x: int, y: int, k: int)
    requires d > 0 && Divides(d, x) && y == k * d
    ensures Divides(d, x - y)
  {
    var j := x / d;
    assert x == j * d;
    AddMul(j, -k, d);
    NegMul(k, d);
    DivModUnique(x - y, d, j - k, 0);
  }

  lemma BothEven(a: nat, p: nat)
    requires 0 < p && a % 2 == 0 && p % 2 == 0
    ensures InverseOrZero(0, a, p)
  {
    assert Divides(2, a) && Divides(2, p);
  }

  lemma InverseOfOne(p: nat)
    requires p > 1
    ensures InverseOrZero(1, 1, p)
  {
    FromWitness(1 * 1, 1, p, 0);
    InverseExcludesDivisor(1, 1, p);
  }

  /** From the inverse u of p modulo a to the inverse of a modulo p. */
  lemma FromSwapped(u: nat, a: nat, p: nat)
    requires 1 < a < p && InverseOrZero(u, p, a)
    ensures u == 0 ==> InverseOrZero(0, a, p)
    ensures u != 0 ==> u < a && 0 <= (p * (a - u) + 1) / a && InverseOrZero((p * (a - u) + 1) / a, a, p)
  {
    DivisorsSwap(a, p);
    if u == 0 {
      if !HaveCommonDivisor(p, a) {
        var k := Witness(u * p, 1, a);
        NegMul(k, a);
        if k <= -1 { MulMonotone(k, -1, a); } else { MulMonotone(0, k, a); }
      }
    } else {
      var k := Witness(u * p, 1, a);
      SwappedInverse(u, a, p, k);
      FromWitness((p - k) * a, 1, p, a - u);
      InverseExcludesDivisor(p - k, a, p);
    }
  }

  lemma DivisorsSwap(a: nat, p: nat)
    ensures HaveCommonDivisor(a, p) <==> HaveCommonDivisor(p, a)
  {
  }

  lemma SwappedInverse(u: nat, a: nat, p: nat, k: int)
    requires 0 < u < a < p && u * p == 1 + k * a
    ensures 0 < k < p && (p * (a - u) + 1) / a == p - k
    ensures (p - k) * a == 1 + (a - u) * p
  {
    assert p * (a - u) == p * a - u * p;
    AddMul(p, -k, a);
    NegMul(k, a);
    MulMonotone(1, u, p);
    if k <= 0 { MulMonotone(k, 0, a); }
    MulMonotone(u, a - 1, p);
    MulComm(p, a);
    if p <= k { MulMonotone(p, k, a); AddMul(a, -1, p); }
    DivModUnique(p * (a - u) + 1, a, p - k, 0);
    MulComm(p, a - u);
  }
}
