/** Recursive multiplication: full product, lower half, and upper half from a known lower half. */
module Karatsuba {
  import opened Integers
  import opened Words
  import opened WordArithmetic
  import opened SmallMultiply
  import opened ColumnMultiply

  predicate PowerOfTwo(n: nat) {
    n == 1 || (n > 1 && n % 2 == 0 && PowerOfTwo(n / 2))
  }

  lemma PowerIsEven(n: nat)
    requires 2 <= n && PowerOfTwo(n)
    ensures n % 2 == 0
  {
  }

  lemma HalvesOfPowerOfTwo(n: nat)
    requires PowerOfTwo(n) && n > 2
    ensures PowerOfTwo(n / 2) && n / 2 >= 2 && n == 2 * (n / 2) && (n / 2) % 2 == 0
  {
  }

  /** Memory holds 2n words at r and t, n words at a and b, with r and t clear of everything else. */
  ghost predicate Operands(m: array<Word>, r: nat, t: nat, a: nat, b: nat, n: nat) {
    r + 2 * n <= m.Length && t + 2 * n <= m.Length && a + n <= m.Length && b + n <= m.Length &&
    Disjoint(r, 2 * n, t, 2 * n) &&
    Disjoint(r, 2 * n, a, n) && Disjoint(r, 2 * n, b, n) &&
    Disjoint(t, 2 * n, a, n) && Disjoint(t, 2 * n, b, n)
  }

  method RecursiveMultiply(m: array<Word>, r: nat, t: nat, a: nat, b: nat, n: nat)
    requires n >= 2 && PowerOfTwo(n) && Operands(m, r, t, a, b, n)
    modifies m
    ensures Num(m[..], r, 2 * n) == Product(old(m[..]), a, b, n)
    ensures OnlyChanged2(old(m[..]), m[..], r, 2 * n, t, 2 * n)
    decreases n, 1
  {
    hide Num, Scale, PowerOfTwo, Product, Cross;
    if n == 8 || n == 4 {
      MultiplyUnrolled(m, r, a, b, n);
    } else if n == 2 {
      Multiply2(m, r, a, b);
    } else {
      KaratsubaStep(m, r, t, a, b, n);
    }
  }

  method KaratsubaStep(m: array<Word>, r: nat, t: nat, a: nat, b: nat, n: nat)
    requires n > 2 && PowerOfTwo(n) && Operands(m, r, t, a, b, n)
    modifies m
    ensures Num(m[..], r, 2 * n) == Product(old(m[..]), a, b, n)
    ensures OnlyChanged2(old(m[..]), m[..], r, 2 * n, t, 2 * n)
    decreases n, 0, 2
  {
    hide Num, Scale, PowerOfTwo, Assembled, Product, Cross;
    HalvesOfPowerOfTwo(n);
    var n2 := n / 2;
    ghost var s0 := m[..];
    KaratsubaIdentity(s0, a, b, n2);
    var carry := ThreeProducts(m, r, t, a, b, n);
    CombineProducts(m, r, t, n, carry, Cross(s0, a, b, n2), Product(s0, a, b, n2), Product(s0, a + n2, b + n2, n2));
  }

  /** (A1 - A0)(B0 - B1) for operands of two k-word halves. */
  ghost function Cross(s: seq<Word>, a: nat, b: nat, k: nat): int
    requires a + 2 * k <= |s| && b + 2 * k <= |s|
  {
    (Num(s, a + k, k) as int - Num(s, a, k)) * (Num(s, b, k) as int - Num(s, b + k, k))
  }

  /** Leaves the cross product at t and both square products at r and r + n. */
  method ThreeProducts(m: array<Word>, r: nat, t: nat, a: nat, b: nat, n: nat) returns (carry: int)
    requires n > 2 && PowerOfTwo(n) && Operands(m, r, t, a, b, n)
    modifies m
    ensures -1 <= carry <= 0
    ensures Num(m[..], t, n) + carry * Scale(n) == Cross(old(m[..]), a, b, n / 2)
    ensures Num(m[..], r, n) == Product(old(m[..]), a, b, n / 2)
    ensures Num(m[..], r + n, n) == Product(old(m[..]), a + n / 2, b + n / 2, n / 2)
    ensures OnlyChanged2(old(m[..]), m[..], r, 2 * n, t, 2 * n)
    decreases n, 0, 1
  {
    hide Num, Scale, PowerOfTwo, Product, Cross;
    HalvesOfPowerOfTwo(n);
    var n2 := n / 2;
    ghost var s0 := m[..];
    carry := CrossProduct(m, r, t, a, b, n);
    ghost var s1 := m[..];
    NumsKept2(s0, s1, r, n, t, 2 * n);
    RecursiveMultiply(m, r, t + n, a, b, n2);
    ghost var s2 := m[..];
    NumsKept2(s1, s2, r, n, t + n, n);
    RecursiveMultiply(m, r + n, t + n, a + n2, b + n2, n2);
    NumsKept2(s2, m[..], r + n, n, t + n, n);
    SameProduct(s1, s0, a, b, n2);
    SameProduct(s2, s0, a + n2, b + n2, n2);
  }

  lemma SameProduct(s: seq<Word>, t: seq<Word>, a: nat, b: nat, n: nat)
    requires a + n <= |s| && b + n <= |s| && |s| == |t|
    requires Num(s, a, n) == Num(t, a, n) && Num(s, b, n) == Num(t, b, n)
    ensures Product(s, a, b, n) == Product(t, a, b, n)
  {
  }

  /** Leaves (A1 - A0)(B0 - B1) in n words at t, plus the returned multiple (-1 or 0) of BASE^n.
      The absolute differences go to n words at d; t + n is scratch. */
  method CrossProduct(m: array<Word>, d: nat, t: nat, a: nat, b: nat, n: nat) returns (carry: int)
    requires n > 2 && PowerOfTwo(n)
    requires d + n <= m.Length && t + 2 * n <= m.Length && a + n <= m.Length && b + n <= m.Length
    requires Disjoint(d, n, t, 2 * n)
    requires Disjoint(d, n, a, n) && Disjoint(d, n, b, n) && Disjoint(t, 2 * n, a, n) && Disjoint(t, 2 * n, b, n)
    modifies m
    ensures -1 <= carry <= 0
    ensures Num(m[..], t, n) + carry * Scale(n) == Cross(old(m[..]), a, b, n / 2)
    ensures OnlyChanged2(old(m[..]), m[..], d, n, t, 2 * n)
    decreases n, 0, 0
  {
    hide Num, Scale, PowerOfTwo, Product, Cross;
    HalvesOfPowerOfTwo(n);
    var n2 := n / 2;
    ghost var s0 := m[..];
    var sel := OrderedDifferences(m, d, a, b, n2);
    if sel != -4 && sel != -2 && sel != 2 && sel != 4 {
      SetWords(m, t, 0, n);
      NumZero(m[..], t, n);
      CrossDone(s0, s0, a, b, d, n2, sel);
      return 0;
    }
    ghost var s1 := m[..];
    RecursiveMultiply(m, t, t + n, d, d + n2, n2);
    NumsKept2(s1, m[..], t, n, t + n, n);
    if sel == -4 || sel == 4 {
      TakeOffExcess(m, t, d, n2, sel, s1, s0, a, b);
      carry := -1;
    } else {
      carry := 0;
    }
    CrossDone(s0, s1, a, b, d, n2, sel);
  }

  /** Where no difference wrapped, the product of what is stored is the cross product. */
  lemma CrossDone(s: seq<Word>, t: seq<Word>, a: nat, b: nat, d: nat, k: nat, sel: int)
    requires |s| == |t| && a + 2 * k <= |s| && b + 2 * k <= |s| && d + 2 * k <= |t|
    requires StoredDifferences(sel, Num(s, a, k), Num(s, a + k, k), Num(s, b, k), Num(s, b + k, k), Scale(k),
                               Num(t, d, k), Num(t, d + k, k))
    ensures sel == 2 || sel == -2 ==> Product(t, d, d + k, k) == Cross(s, a, b, k)
    ensures sel != -4 && sel != -2 && sel != 2 && sel != 4 ==> Cross(s, a, b, k) == 0
  {
    var u: int, v: int := Num(s, a + k, k) as int - Num(s, a, k), Num(s, b, k) as int - Num(s, b + k, k);
    SignedProducts(u, v);
  }

  /** How the two differences x and y are stored for each value of the switch. */
  ghost predicate StoredDifferences(sel: int, a0: nat, a1: nat, b0: nat, b1: nat, scale: nat, x: int, y: int) {
    a0 < scale && a1 < scale && b0 < scale && b1 < scale &&
    if sel == -4 then a0 < a1 && b0 < b1 && x == a1 - a0 && y == b0 - b1 + scale
    else if sel == -2 then a0 < a1 && b1 < b0 && x == a1 - a0 && y == b0 - b1
    else if sel == 2 then a1 < a0 && b0 < b1 && x == a0 - a1 && y == b1 - b0
    else if sel == 4 then a1 < a0 && b1 < b0 && x == a1 - a0 + scale && y == b0 - b1
    else a0 == a1 || b0 == b1
  }

  /** Compares the halves of both operands and stores the differences the comparison selects. */
  method OrderedDifferences(m: array<Word>, d: nat, a: nat, b: nat, n: nat) returns (sel: int)
    requires n % 2 == 0 && d + 2 * n <= m.Length && a + 2 * n <= m.Length && b + 2 * n <= m.Length
    requires Disjoint(d, 2 * n, a, 2 * n) && Disjoint(d, 2 * n, b, 2 * n)
    modifies m
    ensures StoredDifferences(sel, old(Num(m[..], a, n)), old(Num(m[..], a + n, n)),
                              old(Num(m[..], b, n)), old(Num(m[..], b + n, n)), Scale(n),
                              Num(m[..], d, n), Num(m[..], d + n, n))
    ensures OnlyChanged(old(m[..]), m[..], d, 2 * n)
  {
    hide Num, Scale;
    NumBound(m[..], a, n);
    NumBound(m[..], a + n, n);
    NumBound(m[..], b, n);
    NumBound(m[..], b + n, n);
    var aComp := Compare(m, a, a + n, n);
    var bComp := Compare(m, b, b + n, n);
    sel := 2 * aComp + aComp + bComp;
    if sel == 2 {
      Differences(m, d, a, a + n, b + n, b, n);
    } else if sel == -4 || sel == -2 || sel == 4 {
      Differences(m, d, a + n, a, b, b + n, n);
    }
  }

  /** The cases -4 and 4: exactly one difference wrapped, and the product overshoots
      by BASE^n times the other one, which is taken off the upper half. */
  method TakeOffExcess(m: array<Word>, t: nat, d: nat, n: nat, sel: int, ghost s1: seq<Word>, ghost s0: seq<Word>, ghost a: nat, ghost b: nat)
    requires n % 2 == 0 && t + 2 * n <= m.Length && d + 2 * n <= m.Length && Disjoint(t, 2 * n, d, 2 * n)
    requires |s1| == |s0| == m.Length && a + 2 * n <= |s0| && b + 2 * n <= |s0|
    requires sel == -4 || sel == 4
    requires StoredDifferences(sel, Num(s0, a, n), Num(s0, a + n, n), Num(s0, b, n), Num(s0, b + n, n), Scale(n),
                               Num(s1, d, n), Num(s1, d + n, n))
    requires Num(m[..], t, 2 * n) == Product(s1, d, d + n, n)
    requires Num(m[..], d, n) == Num(s1, d, n) && Num(m[..], d + n, n) == Num(s1, d + n, n)
    modifies m
    ensures Num(m[..], t, 2 * n) - Scale(2 * n) == Cross(s0, a, b, n)
    ensures OnlyChanged(old(m[..]), m[..], t + n, n)
  {
    hide Num, Scale;
    ghost var s := m[..];
    NumSplit(s, t, n, n);
    var borrow := Subtract(m, t + n, t + n, if sel == -4 then d else d + n, n);
    NumsKept(s, m[..], t + n, n);
    NumSplit(m[..], t, n, n);
    ScaleAdd(n, n);
    NumBound(m[..], t, 2 * n);
    NegativeCross(Num(s0, a, n), Num(s0, a + n, n), Num(s0, b, n), Num(s0, b + n, n), Scale(n),
                  Num(s1, d, n), Num(s1, d + n, n), sel == -4,
                  Num(s, t + n, n), Num(m[..], t + n, n), borrow, Num(s, t, n));
  }

  /** Two wrapped differences side by side at d. */
  method Differences(m: array<Word>, d: nat, a: nat, a': nat, b: nat, b': nat, n: nat)
    requires n % 2 == 0 && d + 2 * n <= m.Length
    requires a + n <= m.Length && a' + n <= m.Length && b + n <= m.Length && b' + n <= m.Length
    requires Disjoint(d, 2 * n, a, n) && Disjoint(d, 2 * n, a', n) && Disjoint(d, 2 * n, b, n) && Disjoint(d, 2 * n, b', n)
    modifies m
    ensures var x, y := old(Num(m[..], a, n)), old(Num(m[..], a', n));
            Num(m[..], d, n) == if x < y then x - y + Scale(n) else x - y
    ensures var x, y := old(Num(m[..], b, n)), old(Num(m[..], b', n));
            Num(m[..], d + n, n) == if x < y then x - y + Scale(n) else x - y
    ensures OnlyChanged(old(m[..]), m[..], d, 2 * n)
  {
    ghost var s0 := m[..];
    var u := Subtract(m, d, a, a', n);
    ghost var s1 := m[..];
    NumsKept(s0, s1, d, n);
    DifferenceWraps(s0, s1, d, a, a', n, u);
    u := Subtract(m, d + n, b, b', n);
    NumsKept(s1, m[..], d + n, n);
    DifferenceWraps(s1, m[..], d + n, b, b', n, u);
  }

  lemma DifferenceWraps(s: seq<Word>, t: seq<Word>, c: nat, a: nat, b: nat, n: nat, borrow: nat)
    requires c + n <= |t| && a + n <= |s| && b + n <= |s| && borrow <= 1
    requires Num(t, c, n) - borrow * Scale(n) == Num(s, a, n) - Num(s, b, n)
    ensures borrow == if Num(s, a, n) < Num(s, b, n) then 1 else 0
  {
    NumBound(t, c, n);
    NumBound(s, a, n);
    NumBound(s, b, n);
  }

  lemma SignedProducts(u: int, v: int)
    ensures (-u) * (-v) == u * v
  {
  }

  /** Exactly one factor is negative: its wrapped form overshoots by BASE^n2 times the other factor,
      which is what is taken off the upper half, borrowing once. */
  lemma NegativeCross(a0: nat, a1: nat, b0: nat, b1: nat, scale: nat, x: int, y: int, second: bool,
                      high: int, high': int, borrow: nat, low: int)
    requires a0 < scale && a1 < scale && b0 < scale && b1 < scale && borrow <= 1
    requires if second then a0 < a1 && b0 < b1 && x == a1 - a0 && y == b0 - b1 + scale
             else a1 < a0 && b1 < b0 && x == a1 - a0 + scale && y == b0 - b1
    requires low + scale * high == x * y
    requires high' - borrow * scale == high - (if second then x else y)
    requires 0 <= low + scale * high'
    ensures low + scale * high' - scale * scale == (a1 - a0) * (b0 - b1)
  {
    var u, v := a1 - a0, b0 - b1;
    var z := if second then x else y;
    OneWrapped(u, v, scale, second);
    WithoutExcess(low, high, high', borrow, z, u * v, scale);
    if second {
      MulPositive(u, -v);
    } else {
      MulPositive(-u, v);
    }
    OppositeSigns(u, v);
    if borrow == 0 { MulEqual(borrow, scale * scale, 0, scale * scale); } else { MulEqual(borrow, scale * scale, 1, scale * scale); }
  }

  /** A product of which one factor was wrapped exceeds the true one by the other factor times the scale. */
  lemma OneWrapped(u: int, v: int, scale: int, second: bool)
    ensures second ==> u * (v + scale) == u * v + scale * u
    ensures !second ==> (u + scale) * v == u * v + scale * v
  {
  }

  lemma WithoutExcess(low: int, high: int, high': int, borrow: int, z: int, uv: int, scale: int)
    requires low + scale * high == uv + scale * z && high' - borrow * scale == high - z
    ensures low + scale * high' - borrow * (scale * scale) == uv
  {
    assert scale * (high' - borrow * scale) == scale * high' - borrow * (scale * scale);
    assert scale * (high - z) == scale * high - scale * z;
  }

  lemma OppositeSigns(u: int, v: int)
    ensures u * (-v) == -(u * v) && (-u) * v == -(u * v)
  {
  }

  /** What the three products add up to, with scale the weight of half an operand. */
  ghost function Assembled(cross: int, p0: int, p1: int, scale: int): int {
    p0 + scale * (cross + p0 + p1) + scale * scale * p1
  }

  lemma KaratsubaIdentity(s: seq<Word>, a: nat, b: nat, k: nat)
    requires a + 2 * k <= |s| && b + 2 * k <= |s|
    ensures var cross, p0, p1 := Cross(s, a, b, k), Product(s, a, b, k), Product(s, a + k, b + k, k);
            0 <= cross + p0 + p1 < 2 * Scale(2 * k) &&
            Assembled(cross, p0, p1, Scale(k)) == Product(s, a, b, 2 * k) < Scale(4 * k)
  {
    hide Num, Scale, Assembled;
    NumSplit(s, a, k, k);
    NumSplit(s, b, k, k);
    NumBound(s, a, k);
    NumBound(s, a + k, k);
    NumBound(s, b, k);
    NumBound(s, b + k, k);
    ScaleAdd(k, k);
    ScaleAdd(2 * k, 2 * k);
    HalvesIdentity(Num(s, a, k), Num(s, a + k, k), Num(s, b, k), Num(s, b + k, k), Scale(k),
                   Cross(s, a, b, k), Product(s, a, b, k), Product(s, a + k, b + k, k),
                   Num(s, a, 2 * k), Num(s, b, 2 * k));
  }

  lemma HalvesIdentity(a0: nat, a1: nat, b0: nat, b1: nat, scale: nat, cross: int, p0: int, p1: int, x: nat, y: nat)
    requires a0 < scale && a1 < scale && b0 < scale && b1 < scale
    requires cross == (a1 as int - a0) * (b0 as int - b1) && p0 == a0 * b0 && p1 == a1 * b1
    requires x == a0 + scale * a1 && y == b0 + scale * b1
    ensures 0 <= cross + p0 + p1 < 2 * (scale * scale)
    ensures Assembled(cross, p0, p1, scale) == x * y < scale * scale * (scale * scale)
  {
    hide Assembled;
    CrossTerms(a0, a1, b0, b1);
    ProductBelow(a0, b1, scale, scale);
    ProductBelow(a1, b0, scale, scale);
    AssembledProduct(a0, a1, b0, b1, scale, x, y);
  }

  lemma AssembledProduct(a0: nat, a1: nat, b0: nat, b1: nat, scale: nat, x: nat, y: nat)
    requires a0 < scale && a1 < scale && b0 < scale && b1 < scale
    requires x == a0 + scale * a1 && y == b0 + scale * b1
    ensures Assembled((a1 as int - a0) * (b0 as int - b1), a0 * b0, a1 * b1, scale) == x * y < scale * scale * (scale * scale)
  {
    MulComm(scale, a1);
    MulComm(scale, b1);
    MulEqual(x, y, a0 + a1 * scale, b0 + b1 * scale);
    ProductOfTwo(a0, a1, b0, b1, scale);
    CrossProducts(a0, a1, b0, b1, scale);
    AssembledIs((a1 as int - a0) * (b0 as int - b1), a0 * b0, a1 * b1, scale);
  }

  lemma AssembledIs(cross: int, p0: int, p1: int, scale: int)
    ensures Assembled(cross, p0, p1, scale) == p0 + scale * (p0 + p1 + cross) + scale * scale * p1
  {
  }

  /** From the three products: the middle words gain their sum, the top words the carry. */
  method CombineProducts(m: array<Word>, r: nat, t: nat, n: nat, carry0: int, ghost cross: int, ghost p0: int, ghost p1: int)
    requires n > 2 && n % 2 == 0 && (n / 2) % 2 == 0 && r + 2 * n <= m.Length && t + n <= m.Length && Disjoint(r, 2 * n, t, n)
    requires Num(m[..], t, n) + carry0 * Scale(n) == cross && Num(m[..], r, n) == p0 && Num(m[..], r + n, n) == p1
    requires 0 <= cross + p0 + p1 < 2 * Scale(n) && Assembled(cross, p0, p1, Scale(n / 2)) < Scale(2 * n)
    modifies m
    ensures Num(m[..], r, 2 * n) == Assembled(cross, p0, p1, Scale(n / 2))
    ensures OnlyChanged2(old(m[..]), m[..], r, 2 * n, t, n)
  {
    hide Num, Scale, Assembled;
    ghost var s0 := m[..];
    var c := Add(m, t, t, r, n);
    ghost var s1 := m[..];
    NumsKept(s0, s1, t, n);
    var c' := Add(m, t, t, r + n, n);
    NumsKept(s1, m[..], t, n);
    var carry := carry0 + c + c';
    CarrySum(Num(s0, t, n), Num(s1, t, n), Num(m[..], t, n), carry0, c, c', carry, Scale(n), cross, p0, p1);
    AddMiddle(m, r, t, n, carry, cross, p0, p1);
  }

  lemma CarrySum(t0: int, t1: int, t2: int, carry0: int, c: int, c': int, carry: int, scale: int, cross: int, p0: int, p1: int)
    requires t0 + carry0 * scale == cross && t1 + c * scale == t0 + p0 && t2 + c' * scale == t1 + p1
    requires carry == carry0 + c + c'
    ensures t2 + carry * scale == cross + p0 + p1
  {
  }

  /** Adds the middle term half way up, and its carry, never more than 2, to the top words. */
  method AddMiddle(m: array<Word>, r: nat, t: nat, n: nat, middle: int, ghost cross: int, ghost p0: int, ghost p1: int)
    requires n > 2 && n % 2 == 0 && (n / 2) % 2 == 0 && r + 2 * n <= m.Length && t + n <= m.Length && Disjoint(r, 2 * n, t, n)
    requires Num(m[..], t, n) + middle * Scale(n) == cross + p0 + p1
    requires Num(m[..], r, n) == p0 && Num(m[..], r + n, n) == p1
    requires 0 <= cross + p0 + p1 < 2 * Scale(n) && Assembled(cross, p0, p1, Scale(n / 2)) < Scale(2 * n)
    modifies m
    ensures Num(m[..], r, 2 * n) == Assembled(cross, p0, p1, Scale(n / 2))
    ensures OnlyChanged(old(m[..]), m[..], r + n / 2, n + n / 2)
  {
    hide Num, Scale, Assembled;
    var n2 := n / 2;
    ghost var s0 := m[..];
    NumBound(s0, t, n);
    CarryRange(Num(s0, t, n), middle, Scale(n), 2);
    var c := Add(m, r + n2, r + n2, t, n);
    var carry := middle + c;
    assert 0 <= carry <= 2;
    ghost var s1 := m[..];
    NumsKept(s0, s1, r + n2, n);
    BaseAtLeast256();
    var overflow := Increment(m, r + n + n2, n2, carry);
    NumsKept(s1, m[..], r + n + n2, n2);
    AssembleNumbers(s0, m[..], r, n2, Num(s0, t, n), middle, c, overflow, cross, p0, p1);
  }

  lemma CarryRange(low: nat, carry: int, scale: nat, bound: nat)
    requires low < scale && 0 <= low + carry * scale < bound * scale
    ensures 0 <= carry < bound
  {
    if carry < 0 {
      MulMonotone(carry, -1, scale);
    } else if bound <= carry {
      MulMonotone(bound, carry, scale);
    }
  }

  lemma AssembleNumbers(s: seq<Word>, t: seq<Word>, r: nat, k: nat, mid: nat, middle: int, c: nat, overflow: nat,
                        cross: int, p0: int, p1: int)
    requires |s| == |t| && r + 4 * k <= |s|
    requires mid + middle * Scale(2 * k) == cross + p0 + p1
    requires Num(s, r, 2 * k) == p0 && Num(s, r + 2 * k, 2 * k) == p1
    requires Num(t, r, k) == Num(s, r, k)
    requires Num(t, r + k, 2 * k) + c * Scale(2 * k) == Num(s, r + k, 2 * k) + mid
    requires Num(t, r + 3 * k, k) + overflow * Scale(k) == Num(s, r + 3 * k, k) + (middle + c)
    requires Assembled(cross, p0, p1, Scale(k)) < Scale(4 * k)
    ensures Num(t, r, 4 * k) == Assembled(cross, p0, p1, Scale(k))
  {
    hide Num, Scale;
    ThreeParts(s, r, k);
    ThreeParts(t, r, k);
    ScaleAdd(k, k);
    ScaleAdd(2 * k, 2 * k);
    NumSplit(s, r, 2 * k, 2 * k);
    AssembleSum(Scale(k), Scale(2 * k), mid, middle, Num(s, r, k), Num(s, r + k, 2 * k), Num(s, r + 3 * k, k),
                Num(t, r + k, 2 * k), Num(t, r + 3 * k, k), c, overflow);
    NoCarry(Num(t, r, 4 * k), overflow, Scale(4 * k));
  }

  /** 4k words as k, 2k and k words. */
  lemma ThreeParts(s: seq<Word>, p: nat, k: nat)
    requires p + 4 * k <= |s|
    ensures Num(s, p, 4 * k) == Num(s, p, k) + Scale(k) * (Num(s, p + k, 2 * k) + Scale(2 * k) * Num(s, p + 3 * k, k))
  {
    NumSplit(s, p, k, 3 * k);
    NumSplit(s, p + k, 2 * k, k);
  }

  lemma AssembleSum(scale: int, sq: int, mid: int, carry: int, r0: int, r12: int, r3: int, r12': int, r3': int, c: int, overflow: int)
    requires sq == scale * scale
    requires r12' + c * sq == r12 + mid
    requires r3' + overflow * scale == r3 + (carry + c)
    ensures r0 + scale * (r12' + sq * r3') + overflow * (sq * sq) == r0 + scale * (r12 + sq * r3) + scale * (mid + carry * sq)
  {
    assert sq * (r3' + overflow * scale) == sq * r3' + overflow * (sq * scale);
    assert sq * (r3 + (carry + c)) == sq * r3 + carry * sq + c * sq;
    var inner := r12' + sq * r3' + overflow * (sq * scale);
    assert inner == r12 + sq * r3 + (mid + carry * sq);
    assert scale * inner == scale * (r12' + sq * r3') + overflow * (sq * sq);
    assert scale * inner == scale * (r12 + sq * r3) + scale * (mid + carry * sq);
  }
}
