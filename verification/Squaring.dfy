/** Square2, Square4 and RecursiveSquare: products of equal pairs are formed once and added twice. */
module Squaring {
  import opened Integers
  import opened Words
  import opened WordArithmetic
  import opened ColumnMultiply
  import opened Karatsuba

  // ---- Columns of a square ----

  lemma TermMirrored(s: seq<Word>, a: nat, n: nat, i: int, j: int)
    requires a + n <= |s|
    ensures Term(s, a, a, n, i, j) == Term(s, a, a, n, j, i)
  {
    if 0 <= i < n && 0 <= j < n { MulComm(s[a + i], s[a + j]); }
  }

  /** The last h terms of a column are its first h terms in reverse. */
  lemma {:induction false} ColumnMirrored(s: seq<Word>, a: nat, n: nat, k: nat, h: nat)
    requires a + n <= |s| && 2 * h <= k + 1
    ensures Column(s, a, a, n, k, k + 1) == Column(s, a, a, n, k, k + 1 - h) + Column(s, a, a, n, k, h)
  {
    hide Term;
    if h > 0 {
      ColumnMirrored(s, a, n, k, h - 1);
      TermMirrored(s, a, n, h - 1, k - (h - 1));
      assert k - (k + 1 - h) == h - 1;
    }
  }

  lemma {:induction false} RowsOutside(s: seq<Word>, a: nat, n: nat, k: nat, rows: nat)
    requires a + n <= |s| && n <= rows
    ensures Column(s, a, a, n, k, rows) == Column(s, a, a, n, k, n)
  {
    if n < rows { RowsOutside(s, a, n, k, rows - 1); }
  }

  /** Twice the terms below the diagonal and, in an even column, the one on it. */
  lemma SquareColumn(s: seq<Word>, a: nat, n: nat, k: nat)
    requires a + n <= |s| && 0 < n && k <= 2 * n - 2
    ensures var h := (k + 1) / 2;
            Column(s, a, a, n, k, n) == 2 * Column(s, a, a, n, k, h)
              + (if k % 2 == 0 then s[a + k / 2] as int * s[a + k / 2] else 0)
  {
    hide Term;
    var h := (k + 1) / 2;
    ColumnMirrored(s, a, n, k, h);
    if n <= k + 1 {
      RowsOutside(s, a, n, k, k + 1);
    } else {
      ColumnPadding(s, a, a, n, k, n);
    }
    if k % 2 == 0 {
      assert k == 2 * h && k / 2 == h;
      NextRow(s, a, n, k, h);
    } else {
      assert k + 1 - h == h;
    }
  }

  lemma NextRow(s: seq<Word>, a: nat, n: nat, k: nat, h: nat)
    requires a + n <= |s| && k == 2 * h && h < n
    ensures Column(s, a, a, n, k, h + 1) == Column(s, a, a, n, k, h) + s[a + h] as int * s[a + h]
  {
  }

  /** SquAcc: a product added twice. */
  method SquAcc(acc: Accumulator, x: Word, y: Word, ghost products: nat) returns (r: Accumulator)
    requires products < 14 && acc.Value() < products * (BASE * BASE)
    ensures r.Value() == acc.Value() + 2 * (x * y)
    ensures r.Value() < (products + 2) * (BASE * BASE)
  {
    hide Accumulator.Value;
    r := MulAcc(acc, x, y, products);
    r := MulAcc(r, x, y, products + 1);
  }

  /** All products of column k of the square of n words, added to acc. */
  method AddSquareColumn(m: array<Word>, a: nat, n: nat, k: nat, acc: Accumulator) returns (r: Accumulator)
    requires 0 < n <= 4 && a + n <= m.Length && k <= 2 * n - 2
    requires acc.Value() < 1 * (BASE * BASE)
    ensures r.Value() == acc.Value() + Column(m[..], a, a, n, k, n)
  {
    hide Accumulator.Value;
    ghost var s := m[..];
    var lo := if k < n then 0 else k - n + 1;
    var half := (k + 1) / 2;
    r := acc;
    ColumnPadding(s, a, a, n, k, lo);
    for i := lo to half
      invariant r.Value() == acc.Value() + 2 * Column(s, a, a, n, k, i)
      invariant r.Value() < (2 * (i - lo) + 1) * (BASE * BASE)
    {
      r := SquAcc(r, m[a + i], m[a + k - i], 2 * (i - lo) + 1);
    }
    if k % 2 == 0 {
      r := MulAcc(r, m[a + half], m[a + half], 2 * (half - lo) + 1);
    }
    SquareColumn(s, a, n, k);
  }

  method SaveSquareColumn(m: array<Word>, r: nat, a: nat, n: nat, k: nat, acc0: Accumulator, ghost s: seq<Word>) returns (acc: Accumulator)
    requires 0 < n <= 4 && k <= 2 * n - 2 && r + k < m.Length && a + n <= m.Length && Disjoint(r, k + 1, a, n)
    requires OnlyChanged(s, m[..], r, k) && acc0.Value() < 1 * (BASE * BASE)
    requires Num(m[..], r, k) + acc0.Value() * Scale(k) == Columns(s, a, a, n, k, n)
    modifies m
    ensures OnlyChanged(s, m[..], r, k + 1)
    ensures acc.Value() < 1 * (BASE * BASE)
    ensures Num(m[..], r, k + 1) + acc.Value() * Scale(k + 1) == Columns(s, a, a, n, k + 1, n)
  {
    ghost var before := m[..];
    acc := AddSquareColumn(m, a, n, k, acc0);
    SameColumn(before, s, a, a, n, k, n);
    m[r + k] := acc.c;
    NumsKept(before, m[..], r + k, 1);
    ShiftedValue(acc);
    SaveStep(Num(before, r, k), acc.c, Shifted(acc).Value(), acc0.Value(), Column(s, a, a, n, k, n), Scale(k), BASE);
    acc := Shifted(acc);
  }

  /** Square2 (n = 2) and Square4 (n = 4). */
  method SquareUnrolled(m: array<Word>, r: nat, a: nat, n: nat)
    requires 0 < n <= 4 && r + 2 * n <= m.Length && a + n <= m.Length && Disjoint(r, 2 * n, a, n)
    modifies m
    ensures Num(m[..], r, 2 * n) == Product(old(m[..]), a, a, n)
    ensures OnlyChanged(old(m[..]), m[..], r, 2 * n)
  {
    ghost var s := m[..];
    var acc := Accumulator(0, 0, 0);
    ZeroAccumulator();
    for k := 0 to 2 * n - 1
      invariant OnlyChanged(s, m[..], r, k)
      invariant acc.Value() < 1 * (BASE * BASE)
      invariant Num(m[..], r, k) + acc.Value() * Scale(k) == Columns(s, a, a, n, k, n)
    {
      acc := SaveSquareColumn(m, r, a, n, k, acc, s);
    }
    ghost var before := m[..];
    m[r + 2 * n - 1] := acc.c;
    NumsKept(before, m[..], r + 2 * n - 1, 1);
    RowsAreProduct(s, a, a, n, 2 * n - 1, n);
    NumBound(s, a, n);
    LastWord(Num(s, a, n), Num(s, a, n), n, Num(before, r, 2 * n - 1), acc);
  }

  // ---- Halves ----

  /** The 2n words at r become the square of the n words at a. */
  method RecursiveSquare(m: array<Word>, r: nat, t: nat, a: nat, n: nat)
    requires n >= 2 && PowerOfTwo(n) && Operands(m, r, t, a, a, n)
    modifies m
    ensures Num(m[..], r, 2 * n) == Product(old(m[..]), a, a, n)
    ensures OnlyChanged2(old(m[..]), m[..], r, 2 * n, t, 2 * n)
    decreases n, 1
  {
    hide Num, Scale, PowerOfTwo, Product;
    if n == 4 || n == 2 {
      SquareUnrolled(m, r, a, n);
    } else {
      HalvesOfPowerOfTwo(n);
      ghost var s0, n2 := m[..], n / 2;
      SquareIdentity(s0, a, n2);
      HalfSquares(m, r, t, a, n);
      AddTwice(m, r, t, n / 2, Product(s0, a, a, n2), Product(s0, a + n2, a + n2, n2), Product(s0, a, a + n2, n2), Product(s0, a, a, n));
    }
  }

  method HalfSquares(m: array<Word>, r: nat, t: nat, a: nat, n: nat)
    requires n > 2 && PowerOfTwo(n) && Operands(m, r, t, a, a, n)
    modifies m
    ensures Num(m[..], r, n) == Product(old(m[..]), a, a, n / 2)
    ensures Num(m[..], r + n, n) == Product(old(m[..]), a + n / 2, a + n / 2, n / 2)
    ensures Num(m[..], t, n) == Product(old(m[..]), a, a + n / 2, n / 2)
    ensures OnlyChanged2(old(m[..]), m[..], r, 2 * n, t, 2 * n)
    decreases n, 0
  {
    hide Num, Scale, PowerOfTwo, Product;
    HalvesOfPowerOfTwo(n);
    var n2 := n / 2;
    ghost var s0 := m[..];
    RecursiveSquare(m, r, t + n, a, n2);
    ghost var s1 := m[..];
    NumsKept2(s0, s1, r, n, t + n, n);
    RecursiveSquare(m, r + n, t + n, a + n2, n2);
    ghost var s2 := m[..];
    NumsKept2(s1, s2, r + n, n, t + n, n);
    RecursiveMultiply(m, t, t + n, a, a + n2, n2);
    NumsKept2(s2, m[..], t, n, t + n, n);
    SameProduct(s1, s0, a + n2, a + n2, n2);
    SameProduct(s2, s0, a, a + n2, n2);
  }

  /** (A0 + S A1)^2 as the squares of the halves and twice their product. */
  lemma SquareIdentity(s: seq<Word>, a: nat, k: nat)
    requires a + 2 * k <= |s|
    ensures Product(s, a, a, 2 * k) == Product(s, a, a, k) + Scale(2 * k) * Product(s, a + k, a + k, k) + Scale(k) * (2 * Product(s, a, a + k, k))
    ensures Product(s, a, a, 2 * k) < Scale(4 * k)
  {
    hide Num, Scale;
    NumSplit(s, a, k, k);
    ScaleAdd(k, k);
    SquareOfSum(Num(s, a, k), Num(s, a + k, k), Num(s, a, 2 * k), Scale(k));
    NumBound(s, a, 2 * k);
    ScaleAdd(2 * k, 2 * k);
    ProductBelow(Num(s, a, 2 * k), Num(s, a, 2 * k), Scale(2 * k), Scale(2 * k));
  }

  lemma SquareOfSum(x: int, y: int, z: int, scale: int)
    requires z == x + scale * y
    ensures z * z == x * x + scale * scale * (y * y) + scale * (2 * (x * y))
  {
    assert z * z == x * z + scale * y * z;
    assert x * z == x * x + scale * (x * y);
    assert scale * y * z == scale * (x * y) + scale * scale * (y * y);
  }

  /** The product of the halves is added twice half way up; the carries of both additions go to the top words. */
  method AddTwice(m: array<Word>, r: nat, t: nat, k: nat, ghost p0: nat, ghost p1: nat, ghost x: nat, ghost total: nat)
    requires 0 < k && k % 2 == 0 && r + 4 * k <= m.Length && t + 2 * k <= m.Length && Disjoint(r, 4 * k, t, 2 * k)
    requires Num(m[..], r, 2 * k) == p0 && Num(m[..], r + 2 * k, 2 * k) == p1 && Num(m[..], t, 2 * k) == x
    requires p0 + Scale(2 * k) * p1 + Scale(k) * (2 * x) == total < Scale(4 * k)
    modifies m
    ensures Num(m[..], r, 4 * k) == total
    ensures OnlyChanged(old(m[..]), m[..], r + k, 3 * k)
  {
    hide Num, Scale;
    ghost var s0 := m[..];
    var c := Add(m, r + k, r + k, t, 2 * k);
    ghost var s1 := m[..];
    NumsKept(s0, s1, r + k, 2 * k);
    var c' := Add(m, r + k, r + k, t, 2 * k);
    ghost var s2 := m[..];
    NumsKept(s1, s2, r + k, 2 * k);
    BaseAtLeast256();
    var overflow := Increment(m, r + 3 * k, k, c + c');
    NumsKept(s2, m[..], r + 3 * k, k);
    TwoCarries(Num(s0, r + k, 2 * k), Num(s1, r + k, 2 * k), Num(s2, r + k, 2 * k), c, c', x, Scale(2 * k));
    AssembleSquare(s0, m[..], r, k, x, c + c', overflow, total);
  }

  lemma TwoCarries(r0: int, r1: int, r2: int, c: int, c': int, x: int, scale: int)
    requires r1 + c * scale == r0 + x && r2 + c' * scale == r1 + x
    ensures r2 + (c + c') * scale == r0 + 2 * x
  {
    AddMul(c, c', scale);
  }

  lemma AssembleSquare(s: seq<Word>, t: seq<Word>, r: nat, k: nat, x: nat, c: nat, overflow: nat, total: nat)
    requires |s| == |t| && r + 4 * k <= |s|
    requires Num(t, r, k) == Num(s, r, k)
    requires Num(t, r + k, 2 * k) + c * Scale(2 * k) == Num(s, r + k, 2 * k) + 2 * x
    requires Num(t, r + 3 * k, k) + overflow * Scale(k) == Num(s, r + 3 * k, k) + c
    requires Num(s, r, 2 * k) + Scale(2 * k) * Num(s, r + 2 * k, 2 * k) + Scale(k) * (2 * x) == total < Scale(4 * k)
    ensures Num(t, r, 4 * k) == total
  {
    hide Num, Scale;
    ThreeParts(s, r, k);
    ThreeParts(t, r, k);
    ScaleAdd(k, k);
    ScaleAdd(2 * k, 2 * k);
    NumSplit(s, r, 2 * k, 2 * k);
    AssembleTwice(Scale(k), Scale(2 * k), x, Num(s, r, k), Num(s, r + k, 2 * k), Num(s, r + 3 * k, k),
                  Num(t, r + k, 2 * k), Num(t, r + 3 * k, k), c, overflow);
    NoCarry(Num(t, r, 4 * k), overflow, Scale(4 * k));
  }

  lemma AssembleTwice(scale: int, sq: int, x: int, r0: int, r12: int, r3: int, r12': int, r3': int, c: int, overflow: int)
    requires sq == scale * scale && r12' + c * sq == r12 + 2 * x && r3' + overflow * scale == r3 + c
    ensures r0 + scale * (r12' + sq * r3') + overflow * (sq * sq) == r0 + scale * (r12 + sq * r3) + scale * (2 * x)
  {
    AssembleSum(scale, sq, 2 * x, 0, r0, r12, r3, r12', r3', c, overflow);
    MulEqual(scale, 2 * x + 0 * sq, scale, 2 * x);
  }
}
