/** RecursiveMultiplyBottom and RecursiveMultiplyTop: one half of a product. */
module HalfProducts {
  import opened Integers
  import opened Words
  import opened WordArithmetic
  import opened SmallMultiply
  import opened ColumnMultiply
  import opened Karatsuba

  // ---- Lower half ----

  method RecursiveMultiplyBottom(m: array<Word>, r: nat, t: nat, a: nat, b: nat, n: nat)
    requires n >= 2 && PowerOfTwo(n)
    requires r + n <= m.Length && t + n <= m.Length && a + n <= m.Length && b + n <= m.Length
    requires Disjoint(r, n, t, n) && Disjoint(r, n, a, n) && Disjoint(r, n, b, n) && Disjoint(t, n, a, n) && Disjoint(t, n, b, n)
    modifies m
    ensures Num(m[..], r, n) == Product(old(m[..]), a, b, n) % Scale(n)
    ensures OnlyChanged2(old(m[..]), m[..], r, n, t, n)
    decreases n, 0
  {
    hide Num, Scale, PowerOfTwo, Product;
    if n == 8 || n == 4 {
      MultiplyBottomUnrolled(m, r, a, b, n);
    } else if n == 2 {
      Multiply2Bottom(m, r, a, b);
    } else {
      BottomStep(m, r, t, a, b, n);
    }
  }

  /** The full product of the low halves, plus the lower halves of both cross products. */
  method BottomStep(m: array<Word>, r: nat, t: nat, a: nat, b: nat, n: nat)
    requires n > 2 && PowerOfTwo(n)
    requires r + n <= m.Length && t + n <= m.Length && a + n <= m.Length && b + n <= m.Length
    requires Disjoint(r, n, t, n) && Disjoint(r, n, a, n) && Disjoint(r, n, b, n) && Disjoint(t, n, a, n) && Disjoint(t, n, b, n)
    modifies m
    ensures Num(m[..], r, n) == Product(old(m[..]), a, b, n) % Scale(n)
    ensures OnlyChanged2(old(m[..]), m[..], r, n, t, n)
    decreases n / 2, 2
  {
    hide Num, Scale, PowerOfTwo, Product, WrappedSum;
    HalvesOfPowerOfTwo(n);
    var n2 := n / 2;
    ghost var s0 := m[..];
    RecursiveMultiply(m, r, t, a, b, n2);
    ghost var s1 := m[..];
    NumsKept2(s0, s1, r, n, t, n);
    AddBottom(m, r + n2, t, a + n2, b, n2);
    ghost var s2 := m[..];
    NumsKept2(s1, s2, r + n2, n2, t, n);
    SameProduct(s1, s0, a + n2, b, n2);
    AddBottom(m, r + n2, t, a, b + n2, n2);
    SameProduct(s2, s0, a, b + n2, n2);
    NumsKept2(s2, m[..], r + n2, n2, t, n);
    BottomNumbers(s0, s1, s2, m[..], r, a, b, n2);
  }

  /** Addition of n-word numbers that drops the carry. */
  ghost function WrappedSum(x: int, y: int, n: nat): int {
    (x + y) % Scale(n)
  }

  /** Adds the lower half of a product into c, dropping the carry. */
  method AddBottom(m: array<Word>, c: nat, t: nat, a: nat, b: nat, n: nat)
    requires n >= 2 && PowerOfTwo(n) && n % 2 == 0
    requires c + n <= m.Length && t + 2 * n <= m.Length && a + n <= m.Length && b + n <= m.Length
    requires Disjoint(c, n, t, 2 * n) && Disjoint(t, 2 * n, a, n) && Disjoint(t, 2 * n, b, n)
    modifies m
    ensures Num(m[..], c, n) == WrappedSum(old(Num(m[..], c, n)), Product(old(m[..]), a, b, n), n)
    ensures OnlyChanged2(old(m[..]), m[..], c, n, t, 2 * n)
    decreases n, 1
  {
    hide Num, Scale, PowerOfTwo, Product;
    ghost var s0 := m[..];
    RecursiveMultiplyBottom(m, t, t + n, a, b, n);
    ghost var s1 := m[..];
    NumsKept2(s0, s1, t, n, t + n, n);
    var carry := Add(m, c, c, t, n);
    NumBound(m[..], c, n);
    SumOfRemainder(Num(s0, c, n), Product(s0, a, b, n), Scale(n), Num(m[..], c, n), carry);
  }

  lemma SumOfRemainder(x: nat, y: nat, d: nat, r: nat, carry: nat)
    requires r < d && r + carry * d == x + y % d
    ensures r == (x + y) % d
  {
    var q := y / d;
    assert y == q * d + y % d;
    assert (q + carry) * d == q * d + carry * d;
    DivModUnique(x + y, d, q + carry, r);
  }

  lemma BottomNumbers(s0: seq<Word>, s1: seq<Word>, s2: seq<Word>, s3: seq<Word>, r: nat, a: nat, b: nat, k: nat)
    requires |s0| == |s1| == |s2| == |s3| && r + 2 * k <= |s0| && a + 2 * k <= |s0| && b + 2 * k <= |s0|
    requires Num(s1, r, 2 * k) == Product(s0, a, b, k)
    requires Num(s2, r + k, k) == WrappedSum(Num(s1, r + k, k), Product(s0, a + k, b, k), k)
    requires Num(s3, r + k, k) == WrappedSum(Num(s2, r + k, k), Product(s0, a, b + k, k), k)
    requires Num(s3, r, k) == Num(s1, r, k)
    ensures Num(s3, r, 2 * k) == Product(s0, a, b, 2 * k) % Scale(2 * k)
  {
    hide Num, Scale;
    NumSplit(s1, r, k, k);
    NumSplit(s3, r, k, k);
    NumSplit(s0, a, k, k);
    NumSplit(s0, b, k, k);
    ScaleAdd(k, k);
    NumBound(s3, r, 2 * k);
    BottomIdentity(Num(s0, a, k), Num(s0, a + k, k), Num(s0, b, k), Num(s0, b + k, k), Scale(k),
                   Num(s1, r, k), Num(s1, r + k, k), Num(s2, r + k, k), Num(s3, r + k, k),
                   Product(s0, a + k, b, k), Product(s0, a, b + k, k), Num(s0, a, 2 * k), Num(s0, b, 2 * k));
  }

  lemma BottomIdentity(a0: nat, a1: nat, b0: nat, b1: nat, scale: nat, lo: nat, hi: nat, hi': nat, hi'': nat,
                       p10: nat, p01: nat, x: nat, y: nat)
    requires 0 < scale && lo + scale * hi == a0 * b0 && p10 == a1 * b0 && p01 == a0 * b1
    requires hi' == (hi + p10) % scale && hi'' == (hi' + p01) % scale
    requires x == a0 + scale * a1 && y == b0 + scale * b1
    requires lo + scale * hi'' < scale * scale
    ensures lo + scale * hi'' == x * y % (scale * scale)
  {
    var q, q' := (hi + p10) / scale, (hi' + p01) / scale;
    SchoolTwo(a0, a1, b0, b1, scale);
    MulEqual(x, y, a0 + a1 * scale, b0 + b1 * scale);
    DroppedCarries(lo, hi, p10 + p01, q + q', hi'', a1 * b1, scale);
    DivModUnique(x * y, scale * scale, q + q' + a1 * b1, lo + scale * hi'');
  }

  lemma DroppedCarries(lo: int, hi: int, cross: int, q: int, hi': int, high: int, scale: int)
    requires hi + cross == q * scale + hi'
    ensures lo + scale * hi + cross * scale + high * (scale * scale) == (q + high) * (scale * scale) + (lo + scale * hi')
  {
    assert scale * (hi + cross) == scale * hi + cross * scale;
    assert scale * (q * scale + hi') == q * (scale * scale) + scale * hi';
  }

  // ---- Upper half from a known lower half ----

  method RecursiveMultiplyTop(m: array<Word>, r: nat, t: nat, l: nat, a: nat, b: nat, n: nat)
    requires n >= 2 && PowerOfTwo(n)
    requires r + n <= m.Length && t + 2 * n <= m.Length && l + n <= m.Length && a + n <= m.Length && b + n <= m.Length
    requires Disjoint(r, n, t, 2 * n) && Disjoint(r, n, l, n) && Disjoint(t, 2 * n, l, n)
    requires Disjoint(r, n, a, n) && Disjoint(r, n, b, n) && Disjoint(t, 2 * n, a, n) && Disjoint(t, 2 * n, b, n)
    requires Num(m[..], l, n) == Product(m[..], a, b, n) % Scale(n)
    modifies m
    ensures Num(m[..], r, n) == Product(old(m[..]), a, b, n) / Scale(n)
    ensures OnlyChanged2(old(m[..]), m[..], r, n, t, 2 * n)
  {
    hide Num, Scale, PowerOfTwo, Product, Cross, Assembled;
    if n == 4 || n == 2 {
      TopOfFullProduct(m, r, t, a, b, n);
    } else {
      HalvesOfPowerOfTwo(n);
      var n2 := n / 2;
      ghost var s0 := m[..];
      KaratsubaIdentity(s0, a, b, n2);
      HalfBelow(s0, a, b, n2);
      var carry := CrossProduct(m, r, t, a, b, n);
      ghost var s1 := m[..];
      NumsKept2(s0, s1, r, n, t, 2 * n);
      RecursiveMultiply(m, t + n, r, a + n2, b + n2, n2);
      NumsKept2(s1, m[..], t + n, n, r, n);
      SameProduct(s1, s0, a + n2, b + n2, n2);
      UpperHalf(m, r, t, l, n, carry, Cross(s0, a, b, n2), Product(s0, a, b, n2), Product(s0, a + n2, b + n2, n2));
    }
  }

  lemma HalfBelow(s: seq<Word>, a: nat, b: nat, k: nat)
    requires a + k <= |s| && b + k <= |s|
    ensures Product(s, a, b, k) < Scale(2 * k)
  {
    hide Num, Scale;
    NumBound(s, a, k);
    NumBound(s, b, k);
    ScaleAdd(k, k);
    ProductBelow(Num(s, a, k), Num(s, b, k), Scale(k), Scale(k));
  }

  /** The two sizes that compute the whole product and copy its upper half. */
  method TopOfFullProduct(m: array<Word>, r: nat, t: nat, a: nat, b: nat, n: nat)
    requires n == 2 || n == 4
    requires r + n <= m.Length && t + 2 * n <= m.Length && a + n <= m.Length && b + n <= m.Length
    requires Disjoint(r, n, t, 2 * n) && Disjoint(t, 2 * n, a, n) && Disjoint(t, 2 * n, b, n)
    modifies m
    ensures Num(m[..], r, n) == Product(old(m[..]), a, b, n) / Scale(n)
    ensures OnlyChanged2(old(m[..]), m[..], r, n, t, 2 * n)
  {
    hide Num, Scale, Product;
    ghost var s0 := m[..];
    if n == 4 {
      MultiplyUnrolled(m, t, a, b, n);
    } else {
      Multiply2(m, t, a, b);
    }
    ghost var s1 := m[..];
    CopyWords(m, r, t + n, n);
    NumSplit(s1, t, n, n);
    NumBound(s1, t, n);
    DivModUnique(Product(s0, a, b, n), Scale(n), Num(s1, t + n, n), Num(s1, t, n));
  }

  /** The pieces the upper half is made of: memory holds the cross product (with its carry) at t,
      the high square product at t + n, and the lower half of the whole product at l. */
  ghost predicate Pieces(s: seq<Word>, t: nat, l: nat, n: nat, carry: int, cross: int, p0: int, p1: int) {
    t + 2 * n <= |s| && l + n <= |s| && n % 2 == 0 &&
    Num(s, t, n) + carry * Scale(n) == cross && Num(s, t + n, n) == p1 &&
    0 <= p0 < Scale(n) && 0 <= cross + p0 + p1 < 2 * Scale(n) &&
    0 <= Assembled(cross, p0, p1, Scale(n / 2)) < Scale(2 * n) &&
    Num(s, l, n) == Assembled(cross, p0, p1, Scale(n / 2)) % Scale(n)
  }

  method UpperHalf(m: array<Word>, r: nat, t: nat, l: nat, n: nat, carry0: int, ghost cross: int, ghost p0: int, ghost p1: int)
    requires n > 2 && n % 2 == 0 && (n / 2) % 2 == 0 && r + n <= m.Length && Pieces(m[..], t, l, n, carry0, cross, p0, p1)
    requires Disjoint(r, n, t, 2 * n) && Disjoint(r, n, l, n)
    modifies m
    ensures Num(m[..], r, n) == Assembled(cross, p0, p1, Scale(n / 2)) / Scale(n)
    ensures OnlyChanged(old(m[..]), m[..], r, n)
  {
    hide Num, Scale, Assembled;
    var n2 := n / 2;
    ghost var s0 := m[..];
    var c2, u := RecoverMiddle(m, r, t, l, n2);
    ghost var s1 := m[..];
    NumsKept(s0, s1, r, n2);
    NumBound(s1, r, n2);
    PiecesIdentity(s0, t, l, n2, carry0, cross, p0, p1, c2, u, Num(s1, r, n2));
    var carry := AddUpperWords(m, r, t, n2, carry0, c2, u);
    ghost var s2 := m[..];
    NumsKept(s1, s2, r, n2);
    NumBound(s2, r, n2);
    CarryRange(Num(s2, r, n2), carry, Scale(n2), 3);
    assert 0 <= carry <= 2;
    BaseAtLeast256();
    ScaleAdd(n2, n2);
    UpperFits(Assembled(cross, p0, p1, Scale(n2)), n);
    JoinHalves(m, r, t + n + n2, n2, carry, Assembled(cross, p0, p1, Scale(n2)) / Scale(n));
  }

  /** The upper words follow the lower ones, with their carry. */
  method JoinHalves(m: array<Word>, r: nat, t3: nat, k: nat, carry: int, ghost q: int)
    requires 0 < k && r + 2 * k <= m.Length && t3 + k <= m.Length && Disjoint(r, 2 * k, t3, k) && 0 <= carry < BASE
    requires Num(m[..], r, k) + carry * Scale(k) + Scale(k) * Num(m[..], t3, k) == q < Scale(k) * Scale(k)
    modifies m
    ensures Num(m[..], r, 2 * k) == q
    ensures OnlyChanged(old(m[..]), m[..], r + k, k)
  {
    hide Num, Scale;
    ghost var s2 := m[..];
    CopyWords(m, r + k, t3, k);
    ghost var s3 := m[..];
    NumsKept(s2, s3, r + k, k);
    var overflow := Increment(m, r + k, k, carry);
    NumsKept(s3, m[..], r + k, k);
    NumSplit(m[..], r, k, k);
    JoinUpper(Num(s2, r, k), Num(m[..], r + k, k), carry, overflow, Num(s2, t3, k), Scale(k), q);
  }

  lemma UpperFits(total: int, n: nat)
    requires 0 <= total < Scale(2 * n)
    ensures 0 <= total / Scale(n) < Scale(n)
  {
    hide Scale;
    ScaleAdd(n, n);
    var d := Scale(n);
    var q := total / d;
    assert total == q * d + total % d;
    if q < 0 { MulMonotone(q, -1, d); } else if d <= q { MulMonotone(d, q, d); }
  }

  lemma JoinUpper(lo: nat, hi: nat, carry: int, overflow: nat, t3: nat, scale: nat, q: int)
    requires hi + overflow * scale == t3 + carry
    requires lo + carry * scale + scale * t3 == q < scale * scale
    ensures lo + scale * hi == q
  {
    assert scale * (hi + overflow * scale) == scale * hi + overflow * (scale * scale);
    assert scale * (t3 + carry) == scale * t3 + carry * scale;
    NatProduct(scale, hi);
    NoCarry(lo + scale * hi, overflow, scale * scale);
  }

  /** R0 := L1 - L0 - T0, which is A0*B0's upper half plus T2 up to a multiple of BASE^k;
      comparing with T2 tells which. */
  method RecoverMiddle(m: array<Word>, r: nat, t: nat, l: nat, k: nat) returns (c2: nat, u: nat)
    requires k % 2 == 0 && r + k <= m.Length && t + 4 * k <= m.Length && l + 2 * k <= m.Length
    requires Disjoint(r, k, t, 4 * k) && Disjoint(r, k, l, 2 * k)
    modifies m
    ensures c2 <= 2
    ensures Num(m[..], r, k) == old(Num(m[..], l + k, k)) - old(Num(m[..], l, k)) - old(Num(m[..], t, k)) + c2 * Scale(k)
    ensures u == if Num(m[..], r, k) < old(Num(m[..], t + 2 * k, k)) then 1 else 0
    ensures OnlyChanged(old(m[..]), m[..], r, k)
  {
    hide Num, Scale;
    ghost var s0 := m[..];
    var b := Subtract(m, r, l + k, l, k);
    ghost var s1 := m[..];
    NumsKept(s0, s1, r, k);
    var b' := Subtract(m, r, r, t, k);
    NumsKept(s1, m[..], r, k);
    c2 := b + b';
    BorrowsAdd(Num(s1, r, k), Num(m[..], r, k), Num(s0, l + k, k) - Num(s0, l, k), Num(s0, t, k), b, b', c2, Scale(k));
    var order := Compare(m, r, t + 2 * k, k);
    u := if order == -1 then 1 else 0;
  }

  lemma BorrowsAdd(r1: int, r2: int, x: int, y: int, b: int, b': int, c: int, scale: int)
    requires r1 - b * scale == x && r2 - b' * scale == r1 - y && c == b + b'
    ensures r2 == x - y + c * scale
  {
  }

  /** The carries of the three additions into R0, on top of carry0. */
  method AddUpperWords(m: array<Word>, r: nat, t: nat, k: nat, carry0: int, c2: nat, u: nat) returns (carry: int)
    requires 0 < k && k % 2 == 0 && r + k <= m.Length && t + 4 * k <= m.Length && Disjoint(r, k, t, 4 * k)
    requires c2 <= 2 && u <= 1
    modifies m
    ensures Num(m[..], r, k) + carry * Scale(k)
         == old(Num(m[..], r, k)) + c2 + u + old(Num(m[..], t + k, k)) + old(Num(m[..], t + 3 * k, k)) + (carry0 + u) * Scale(k)
    ensures OnlyChanged(old(m[..]), m[..], r, k)
  {
    hide Num, Scale;
    BaseAtLeast256();
    ghost var s0 := m[..];
    var x := Increment(m, r, k, c2 + u);
    ghost var s1 := m[..];
    NumsKept(s0, s1, r, k);
    var y := Add(m, r, r, t + k, k);
    ghost var s2 := m[..];
    NumsKept(s1, s2, r, k);
    var z := Add(m, r, r, t + 3 * k, k);
    NumsKept(s2, m[..], r, k);
    carry := carry0 + u + x + y + z;
    ThreeCarries(Num(s1, r, k), Num(s2, r, k), Num(m[..], r, k), x, y, z, carry0 + u, carry, Scale(k),
                 Num(s0, r, k) + c2 + u, Num(s0, t + k, k), Num(s0, t + 3 * k, k));
  }

  lemma ThreeCarries(r1: int, r2: int, r3: int, x: int, y: int, z: int, c: int, carry: int, scale: int, v: int, w: int, w': int)
    requires r1 + x * scale == v && r2 + y * scale == r1 + w && r3 + z * scale == r2 + w'
    requires carry == c + x + y + z
    ensures r3 + carry * scale == v + w + w' + c * scale
  {
  }

  lemma PiecesIdentity(s: seq<Word>, t: nat, l: nat, k: nat, carry: int, cross: int, p0: int, p1: int, c2: nat, u: nat, r0: nat)
    requires Pieces(s, t, l, 2 * k, carry, cross, p0, p1) && r0 < Scale(k)
    requires r0 == Num(s, l + k, k) - Num(s, l, k) - Num(s, t, k) + c2 * Scale(k)
    requires u == if r0 < Num(s, t + 2 * k, k) then 1 else 0
    ensures var v := r0 + c2 + u + Num(s, t + k, k) + Num(s, t + 3 * k, k) + (carry + u) * Scale(k);
            0 <= v < 3 * Scale(k) &&
            v + Scale(k) * Num(s, t + 3 * k, k) == Assembled(cross, p0, p1, Scale(k)) / Scale(2 * k)
  {
    hide Num, Scale;
    NumSplit(s, t, k, k);
    NumSplit(s, t + 2 * k, k, k);
    NumSplit(s, l, k, k);
    NumBound(s, t, k);
    NumBound(s, t + k, k);
    NumBound(s, t + 2 * k, k);
    NumBound(s, t + 3 * k, k);
    NumBound(s, l, k);
    NumBound(s, l + k, k);
    ScaleAdd(k, k);
    TopIdentity(Scale(k), Num(s, l, k), Num(s, l + k, k), Num(s, t, k), Num(s, t + k, k), Num(s, t + 2 * k, k), Num(s, t + 3 * k, k),
                carry, cross, p0, p1, c2, u, r0);
  }

  lemma TopIdentity(scale: nat, l0: nat, l1: nat, t0: nat, t1: nat, t2: nat, t3: nat, carry: int,
                    cross: int, p0: nat, p1: nat, c2: nat, u: nat, r0: nat)
    requires l0 < scale && l1 < scale && t2 < scale && r0 < scale && p0 < scale * scale
    requires cross == t0 + scale * t1 + carry * (scale * scale) && p1 == t2 + scale * t3
    requires 0 <= cross + p0 + p1 < 2 * (scale * scale)
    requires l0 + scale * l1 == Assembled(cross, p0, p1, scale) % (scale * scale)
    requires r0 == l1 - l0 - t0 + c2 * scale && u == if r0 < t2 then 1 else 0
    ensures var v := r0 + c2 + u + t1 + t3 + (carry + u) * scale;
            0 <= v < 3 * scale && v + scale * t3 == Assembled(cross, p0, p1, scale) / (scale * scale)
  {
    hide Assembled;
    var ph, xq := SplitTotal(scale, l0, l1, cross, p0, p1, Assembled(cross, p0, p1, scale));
    var e := xq - (carry * scale + t1 + ph + t3);
    EstimateOff(scale, ph + cross + p0 + p1, xq, l1, ph, l0, t0, t1, t2, t3, carry, e, cross, p0, p1);
    assert ph == r0 - t2 + (e - c2) * scale by {
      assert (e - c2) * scale == e * scale - c2 * scale;
    }
    RecoveredHigh(scale, ph, r0, t2, e - c2, u);
    MiddleRange(ph + cross + p0 + p1, xq, l1, scale);
    MiddleValue(scale, r0, c2, u, t1, t2, t3, carry, ph, xq, p1);
  }

  lemma MiddleValue(scale: int, r0: int, c2: int, u: int, t1: int, t2: int, t3: int, carry: int, ph: int, xq: int, p1: int)
    requires xq == carry * scale + t1 + ph + t3 + c2 + u && ph == r0 - t2 + u * scale && p1 == t2 + scale * t3
    ensures r0 + c2 + u + t1 + t3 + (carry + u) * scale == xq + t2
    ensures r0 + c2 + u + t1 + t3 + (carry + u) * scale + scale * t3 == xq + p1
  {
    assert (carry + u) * scale == carry * scale + u * scale;
  }

  /** The low two words of the total name the low half of p0 and the low word of the middle. */
  lemma SplitTotal(scale: nat, l0: nat, l1: nat, cross: int, p0: nat, p1: nat, total: int) returns (ph: int, xq: int)
    requires l0 < scale && l1 < scale && p0 < scale * scale
    requires total == Assembled(cross, p0, p1, scale) && l0 + scale * l1 == total % (scale * scale)
    ensures 0 <= ph < scale && p0 == ph * scale + l0
    ensures ph + cross + p0 + p1 == xq * scale + l1
    ensures total / (scale * scale) == xq + p1
  {
    hide Assembled;
    var pl, xl;
    ph, pl := Divided(p0, scale);
    xq, xl := Divided(ph + cross + p0 + p1, scale);
    TotalHalves(scale, pl, ph, xl, xq, p1, cross, p0);
    DigitsOfRemainder(total, scale, xq + p1, pl, xl, l0, l1);
    PartBound(p0, ph, pl, scale);
  }

  lemma Divided(x: int, d: nat) returns (q: int, r: nat)
    requires 0 < d
    ensures x == q * d + r && r < d
  {
    q, r := x / d, x % d;
  }

  lemma DigitsOfRemainder(total: int, scale: nat, q: int, d0: nat, d1: nat, l0: nat, l1: nat)
    requires d0 < scale && d1 < scale && l0 < scale && l1 < scale
    requires total == q * (scale * scale) + (d0 + d1 * scale) && l0 + scale * l1 == total % (scale * scale)
    ensures d0 == l0 && d1 == l1 && total / (scale * scale) == q
  {
    TopWordBound(d0, d1, scale, scale);
    DivModUnique(total, scale * scale, q, d0 + d1 * scale);
    DivModUnique(d0 + d1 * scale, scale, d1, d0);
    DivModUnique(l0 + l1 * scale, scale, l1, l0);
  }

  lemma PartBound(p: nat, h: int, l: nat, scale: nat)
    requires p == h * scale + l && l < scale && p < scale * scale
    ensures 0 <= h < scale
  {
    if h < 0 { MulMonotone(h, -1, scale); } else if scale <= h { MulMonotone(scale, h, scale); }
  }

  lemma TotalHalves(scale: int, pl: int, ph: int, xl: int, xq: int, p1: int, cross: int, p0: int)
    requires p0 == ph * scale + pl && ph + cross + p0 + p1 == xq * scale + xl
    ensures Assembled(cross, p0, p1, scale) == (xq + p1) * (scale * scale) + (pl + xl * scale)
  {
    assert scale * (xq * scale + xl) == xq * (scale * scale) + xl * scale;
    assert scale * (ph + (cross + p0 + p1)) == ph * scale + scale * (cross + p0 + p1);
  }

  lemma EstimateOff(scale: int, x: int, xq: int, l1: int, ph: int, pl: int, t0: int, t1: int, t2: int, t3: int, carry: int, e: int,
                    cross: int, p0: int, p1: int)
    requires x == xq * scale + l1 && x == ph + cross + p0 + p1
    requires cross == t0 + scale * t1 + carry * (scale * scale) && p1 == t2 + scale * t3 && p0 == ph * scale + pl
    requires e == xq - (carry * scale + t1 + ph + t3)
    ensures ph + t0 + pl + t2 == l1 + e * scale
  {
    assert e * scale == xq * scale - carry * (scale * scale) - scale * t1 - ph * scale - scale * t3;
  }

  lemma RecoveredHigh(scale: nat, ph: int, r0: nat, t2: nat, d: int, u: nat)
    requires 0 <= ph < scale && r0 < scale && t2 < scale
    requires ph == r0 - t2 + d * scale && u == if r0 < t2 then 1 else 0
    ensures d == u
  {
    if d < u { MulMonotone(d, u - 1, scale); } else if u < d { MulMonotone(u + 1, d, scale); }
  }

  lemma MiddleRange(x: int, xq: int, xl: nat, scale: nat)
    requires x == xq * scale + xl && xl < scale && 0 <= x < 2 * (scale * scale) + scale
    ensures 0 <= xq <= 2 * scale
  {
    if xq < 0 { MulMonotone(xq, -1, scale); } else if 2 * scale < xq { MulMonotone(2 * scale + 1, xq, scale); }
  }
}
