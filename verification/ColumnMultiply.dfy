/** Multiply4, Multiply8 and their lower-half forms: products summed column by column.

    The source unrolls these two sizes; here each is one column loop around the
    same accumulator step. */
module ColumnMultiply {
  import opened Integers
  import opened Words
  import opened WordArithmetic
  import opened SmallMultiply

  // ---- Specification: the product as a sum of columns ----

  /** Product x[i] * y[j], or 0 when an index is outside the operands. */
  ghost function Term(s: seq<Word>, a: nat, b: nat, n: nat, i: int, j: int): int
    requires a + n <= |s| && b + n <= |s|
  {
    if 0 <= i < n && 0 <= j < n then s[a + i] as int * s[b + j] else 0
  }

  /** The first `rows` terms of column k. */
  ghost function Column(s: seq<Word>, a: nat, b: nat, n: nat, k: nat, rows: nat): int
    requires a + n <= |s| && b + n <= |s|
  {
    if rows == 0 then 0 else Column(s, a, b, n, k, rows - 1) + Term(s, a, b, n, rows - 1, k - (rows - 1))
  }

  ghost function Columns(s: seq<Word>, a: nat, b: nat, n: nat, k: nat, rows: nat): int
    requires a + n <= |s| && b + n <= |s|
  {
    if k == 0 then 0 else Columns(s, a, b, n, k - 1, rows) + Column(s, a, b, n, k - 1, rows) * Scale(k - 1)
  }

  function Clamp(x: int, hi: nat): nat {
    if x < 0 then 0 else if x < hi then x else hi
  }

  lemma {:induction false} NoRows(s: seq<Word>, a: nat, b: nat, n: nat, k: nat)
    requires a + n <= |s| && b + n <= |s|
    ensures Columns(s, a, b, n, k, 0) == 0
  {
    if k != 0 { NoRows(s, a, b, n, k - 1); }
  }

  /** A further row contributes x[i] times the words of y that its columns reach. */
  lemma {:induction false} RowAdded(s: seq<Word>, a: nat, b: nat, n: nat, k: nat, i: nat)
    requires a + n <= |s| && b + n <= |s| && i < n
    ensures Columns(s, a, b, n, k, i + 1)
         == Columns(s, a, b, n, k, i) + s[a + i] * (Scale(i) * Num(s, b, Clamp(k - i, n)))
  {
    if k != 0 {
      RowAdded(s, a, b, n, k - 1, i);
      var j := k - 1 - i;
      if 0 <= j < n {
        ScaleAdd(i, j);
        RowStep(Columns(s, a, b, n, k - 1, i), Column(s, a, b, n, k - 1, i), s[a + i], s[b + j],
                Scale(i), Scale(j), Num(s, b, j));
      }
    }
  }

  lemma RowStep(cols: int, col: int, x: int, y: int, si: int, sj: int, num: int)
    ensures cols + x * (si * num) + (col + x * y) * (si * sj) == cols + col * (si * sj) + x * (si * (num + y * sj))
  {
    assert x * (si * (num + y * sj)) == x * (si * num) + x * y * (si * sj);
  }

  lemma {:induction false} RowsAreProduct(s: seq<Word>, a: nat, b: nat, n: nat, k: nat, rows: nat)
    requires a + n <= |s| && b + n <= |s| && rows <= n && rows + n <= k + 1
    ensures Columns(s, a, b, n, k, rows) == Num(s, a, rows) * Num(s, b, n)
  {
    if rows == 0 {
      NoRows(s, a, b, n, k);
    } else {
      RowsAreProduct(s, a, b, n, k, rows - 1);
      RowAdded(s, a, b, n, k, rows - 1);
      RowProduct(Num(s, a, rows - 1), s[a + rows - 1], Scale(rows - 1), Num(s, b, n));
    }
  }

  lemma RowProduct(x: int, w: int, scale: int, y: int)
    ensures (x + w * scale) * y == x * y + w * (scale * y)
  {
  }

  /** Columns from n upwards are multiples of BASE^n. */
  lemma {:induction false} HighColumnsVanish(s: seq<Word>, a: nat, b: nat, n: nat, k: nat) returns (q: int)
    requires a + n <= |s| && b + n <= |s| && n <= k
    ensures Columns(s, a, b, n, k, n) == Columns(s, a, b, n, n, n) + q * Scale(n)
  {
    if k == n {
      q := 0;
    } else {
      var q' := HighColumnsVanish(s, a, b, n, k - 1);
      ScaleAdd(n, k - 1 - n);
      var col, high := Column(s, a, b, n, k - 1, n), Scale(k - 1 - n);
      q := q' + col * high;
      VanishStep(q', col, Scale(n), high);
    }
  }

  lemma VanishStep(q: int, col: int, scale: int, high: int)
    ensures q * scale + col * (scale * high) == (q + col * high) * scale
  {
  }

  lemma {:induction false} ColumnPadding(s: seq<Word>, a: nat, b: nat, n: nat, k: nat, rows: nat)
    requires a + n <= |s| && b + n <= |s|
    ensures rows <= k + 1 - n ==> Column(s, a, b, n, k, rows) == 0
    ensures k + 1 <= rows ==> Column(s, a, b, n, k, rows) == Column(s, a, b, n, k, k + 1)
  {
    if rows != 0 { ColumnPadding(s, a, b, n, k, rows - 1); }
  }

  // ---- The three-word accumulator ----

  datatype Accumulator = Accumulator(c: Word, d: Word, e: Word) {
    ghost function Value(): int {
      c + d * BASE + e * (BASE * BASE)
    }
  }

  /** MulAcc: adds x * y; `products` bounds how much is in the accumulator already. */
  method MulAcc(acc: Accumulator, x: Word, y: Word, ghost products: nat) returns (r: Accumulator)
    requires products < 15 && acc.Value() < products * (BASE * BASE)
    ensures r.Value() == acc.Value() + x * y
    ensures r.Value() < (products + 1) * (BASE * BASE)
  {
    ProductFits(x, y, acc.c);
    var p := WordMul(x, y) + acc.c;
    var p' := acc.d + Hi(p);
    Halves(p);
    Halves(p');
    var e := acc.e + Hi(p');
    AccumulatorStep(acc.d, acc.e, Lo(p), Hi(p), Lo(p'), Hi(p'), BASE);
    assert Lo(p) + Lo(p') * BASE + e * (BASE * BASE) == acc.Value() + x * y;
    assert (products + 1) * (BASE * BASE) == products * (BASE * BASE) + BASE * BASE;
    ProductFits(x, y, 0);
    TopWordSmall(Lo(p), Lo(p'), e, products + 1, BASE);
    BaseAtLeast256();
    r := Accumulator(Lo(p), Lo(p'), e);
  }

  lemma AccumulatorStep(d: int, e: int, pl: int, ph: int, ql: int, qh: int, base: int)
    requires qh * base + ql == d + ph
    ensures pl + ql * base + (e + qh) * (base * base) == (ph * base + pl) + d * base + e * (base * base)
  {
    assert (qh * base + ql) * base == (d + ph) * base;
  }

  lemma TopWordSmall(c: nat, d: nat, e: nat, bound: nat, base: nat)
    requires 0 < base && c + d * base + e * (base * base) < bound * (base * base)
    ensures e < bound
  {
    if bound <= e { MulMonotone(bound, e, base * base); }
  }

  /** The shift at the start of SaveMulAcc: drops the saved word. */
  function Shifted(acc: Accumulator): Accumulator {
    Accumulator(acc.d, acc.e, 0)
  }

  lemma ShiftedValue(acc: Accumulator)
    ensures acc.Value() == acc.c + Shifted(acc).Value() * BASE
    ensures Shifted(acc).Value() < 1 * (BASE * BASE)
  {
    TopWordBound(acc.d, acc.e, BASE, BASE);
    assert (acc.d + acc.e * BASE) * BASE == acc.d * BASE + acc.e * (BASE * BASE);
  }

  /** All products of column k of two n-word operands, added to acc. */
  method AddColumn(m: array<Word>, a: nat, b: nat, n: nat, k: nat, acc: Accumulator) returns (r: Accumulator)
    requires n <= 8 && a + n <= m.Length && b + n <= m.Length && k <= 2 * n - 2
    requires acc.Value() < 1 * (BASE * BASE)
    ensures r.Value() == acc.Value() + Column(m[..], a, b, n, k, n)
  {
    var lo := if k < n then 0 else k - n + 1;
    var hi := if k < n then k + 1 else n;
    ghost var s := m[..];
    r := acc;
    ColumnPadding(s, a, b, n, k, lo);
    ColumnPadding(s, a, b, n, k, n);
    for i := lo to hi
      invariant r.Value() == acc.Value() + Column(s, a, b, n, k, i)
      invariant r.Value() < (i - lo + 1) * (BASE * BASE)
    {
      r := MulAcc(r, m[a + i], m[b + k - i], i - lo + 1);
    }
  }

  /** Multiply4 (n = 4) and Multiply8 (n = 8). */
  method MultiplyUnrolled(m: array<Word>, r: nat, a: nat, b: nat, n: nat)
    requires 0 < n <= 8 && r + 2 * n <= m.Length && a + n <= m.Length && b + n <= m.Length
    requires Disjoint(r, 2 * n, a, n) && Disjoint(r, 2 * n, b, n)
    modifies m
    ensures Num(m[..], r, 2 * n) == Product(old(m[..]), a, b, n)
    ensures OnlyChanged(old(m[..]), m[..], r, 2 * n)
  {
    ghost var s := m[..];
    var acc := Accumulator(0, 0, 0);
    ZeroAccumulator();
    for k := 0 to 2 * n - 1
      invariant OnlyChanged(s, m[..], r, k)
      invariant acc.Value() < 1 * (BASE * BASE)
      invariant Num(m[..], r, k) + acc.Value() * Scale(k) == Columns(s, a, b, n, k, n)
    {
      acc := SaveColumn(m, r, a, b, n, k, acc, s);
    }
    ghost var before := m[..];
    m[r + 2 * n - 1] := acc.c;
    NumsKept(before, m[..], r + 2 * n - 1, 1);
    RowsAreProduct(s, a, b, n, 2 * n - 1, n);
    NumBound(s, a, n);
    NumBound(s, b, n);
    LastWord(Num(s, a, n), Num(s, b, n), n, Num(before, r, 2 * n - 1), acc);
  }

  /** Sums column k, stores its low word, and shifts the accumulator. */
  method SaveColumn(m: array<Word>, r: nat, a: nat, b: nat, n: nat, k: nat, acc0: Accumulator, ghost s: seq<Word>) returns (acc: Accumulator)
    requires n <= 8 && k <= 2 * n - 2 && r + k < m.Length && a + n <= m.Length && b + n <= m.Length
    requires Disjoint(r, k + 1, a, n) && Disjoint(r, k + 1, b, n)
    requires OnlyChanged(s, m[..], r, k) && acc0.Value() < 1 * (BASE * BASE)
    requires Num(m[..], r, k) + acc0.Value() * Scale(k) == Columns(s, a, b, n, k, n)
    modifies m
    ensures OnlyChanged(s, m[..], r, k + 1)
    ensures acc.Value() < 1 * (BASE * BASE)
    ensures Num(m[..], r, k + 1) + acc.Value() * Scale(k + 1) == Columns(s, a, b, n, k + 1, n)
  {
    ghost var before := m[..];
    acc := AddColumn(m, a, b, n, k, acc0);
    SameColumn(before, s, a, b, n, k, n);
    m[r + k] := acc.c;
    NumsKept(before, m[..], r + k, 1);
    ShiftedValue(acc);
    SaveStep(Num(before, r, k), acc.c, Shifted(acc).Value(), acc0.Value(), Column(s, a, b, n, k, n), Scale(k), BASE);
    acc := Shifted(acc);
  }

  lemma {:induction false} SameColumn(s: seq<Word>, t: seq<Word>, a: nat, b: nat, n: nat, k: nat, rows: nat)
    requires a + n <= |s| && b + n <= |s| && |s| == |t|
    requires SameWords(s, a, t, a, n) && SameWords(s, b, t, b, n)
    ensures Column(s, a, b, n, k, rows) == Column(t, a, b, n, k, rows)
  {
    if rows != 0 { SameColumn(s, t, a, b, n, k, rows - 1); }
  }

  lemma SaveStep(num: int, c: int, rest: int, v0: int, col: int, scale: int, base: int)
    requires c + rest * base == v0 + col
    ensures num + c * scale + rest * (base * scale) == num + v0 * scale + col * scale
  {
    assert (c + rest * base) * scale == (v0 + col) * scale;
  }

  lemma ZeroAccumulator()
    ensures Accumulator(0, 0, 0).Value() == 0 < 1 * (BASE * BASE)
  {
    DWordRange();
  }

  /** What is left after the last column is a single word. */
  lemma LastWord(x: nat, y: nat, n: nat, low: nat, acc: Accumulator)
    requires 0 < n && x < Scale(n) && y < Scale(n)
    requires low + acc.Value() * Scale(2 * n - 1) == x * y
    ensures acc.Value() == acc.c
  {
    ProductBelow(x, y, Scale(n), Scale(n));
    ScaleAdd(n, n);
    var top := Scale(2 * n - 1);
    assert Scale(2 * n) == BASE * top;
    if BASE <= acc.Value() {
      MulMonotone(BASE, acc.Value(), top);
    }
    if acc.d > 0 { MulMonotone(1, acc.d, BASE); }
    if acc.e > 0 { MulMonotone(1, acc.e, BASE * BASE); DWordRange(); }
  }

  /** The last column of a lower half keeps one word only; q counts what is dropped. */
  method AddLastColumn(m: array<Word>, a: nat, b: nat, n: nat, acc: Accumulator) returns (w: Word, ghost q: int)
    requires 0 < n <= 8 && a + n <= m.Length && b + n <= m.Length
    ensures w + q * BASE == acc.Value() + Column(m[..], a, b, n, n - 1, n)
  {
    ghost var s := m[..];
    w := acc.c;
    q := acc.d + acc.e * BASE;
    DropStep(acc.c, acc.d, acc.e, BASE);
    for i := 0 to n
      invariant w + q * BASE == acc.Value() + Column(s, a, b, n, n - 1, i)
    {
      var sum := w + WordMul(m[a + i], m[b + n - 1 - i]);
      Halves(sum);
      AddDropped(q, Hi(sum), BASE);
      q := q + Hi(sum);
      w := Lo(sum);
    }
  }

  lemma DropStep(c: int, d: int, e: int, base: int)
    ensures c + (d + e * base) * base == c + d * base + e * (base * base)
  {
  }

  lemma AddDropped(q: int, x: int, base: int)
    ensures (q + x) * base == q * base + x * base
  {
  }

  /** Multiply4Bottom (n = 4) and Multiply8Bottom (n = 8). */
  method MultiplyBottomUnrolled(m: array<Word>, r: nat, a: nat, b: nat, n: nat)
    requires 2 <= n <= 8 && r + n <= m.Length && a + n <= m.Length && b + n <= m.Length
    requires Disjoint(r, n, a, n) && Disjoint(r, n, b, n)
    modifies m
    ensures Num(m[..], r, n) == Product(old(m[..]), a, b, n) % Scale(n)
    ensures OnlyChanged(old(m[..]), m[..], r, n)
  {
    ghost var s := m[..];
    var acc := Accumulator(0, 0, 0);
    ZeroAccumulator();
    for k := 0 to n - 1
      invariant OnlyChanged(s, m[..], r, k)
      invariant acc.Value() < 1 * (BASE * BASE)
      invariant Num(m[..], r, k) + acc.Value() * Scale(k) == Columns(s, a, b, n, k, n)
    {
      acc := SaveColumn(m, r, a, b, n, k, acc, s);
    }
    ghost var before := m[..];
    var w, q := AddLastColumn(m, a, b, n, acc);
    SameColumn(before, s, a, b, n, n - 1, n);
    m[r + n - 1] := w;
    NumsKept(before, m[..], r + n - 1, 1);
    SaveStep(Num(before, r, n - 1), w, q, acc.Value(), Column(s, a, b, n, n - 1, n), Scale(n - 1), BASE);
    NumBound(m[..], r, n);
    LowColumnsAreRemainder(s, a, b, n, Num(m[..], r, n), q);
  }

  lemma LowColumnsAreRemainder(s: seq<Word>, a: nat, b: nat, n: nat, low: nat, q: int)
    requires 0 < n && a + n <= |s| && b + n <= |s|
    requires low < Scale(n) && low + q * Scale(n) == Columns(s, a, b, n, n, n)
    ensures low == (Num(s, a, n) * Num(s, b, n)) % Scale(n)
  {
    var hq := HighColumnsVanish(s, a, b, n, 2 * n - 1);
    RowsAreProduct(s, a, b, n, 2 * n - 1, n);
    var product := Num(s, a, n) * Num(s, b, n);
    Collect(low, q, hq, Scale(n), product);
    DivModUnique(product, Scale(n), q + hq, low);
  }

  lemma Collect(low: int, q: int, hq: int, scale: int, product: int)
    requires low + q * scale + hq * scale == product
    ensures product == (q + hq) * scale + low
  {
  }
}
