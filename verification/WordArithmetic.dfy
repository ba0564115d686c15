/** The word-array primitives: comparison, carries, borrows, shifts and copies. */
module WordArithmetic {
  import opened Integers
  import opened Words

  // ---- Double words ----

  function Lo(x: nat): Word {
    x % BASE
  }

  function Hi(x: nat): nat {
    DivNat(x, BASE);
    x / BASE
  }

  /** Double-word subtraction wraps modulo BASE * BASE. */
  function DWordSub(x: nat, y: nat): nat
    requires 0 < BASE * BASE
  {
    (x - y) % (BASE * BASE)
  }

  /** Zero minus the high half, in one word. */
  function HiAsBorrow(x: nat): Word {
    (0 - Hi(x)) % BASE
  }

  lemma Halves(x: nat)
    ensures x == Hi(x) * BASE + Lo(x)
  {
  }

  lemma HiBound(x: nat, bound: nat)
    requires x < bound * BASE
    ensures Hi(x) < bound
  {
    if bound <= Hi(x) {
      MulMonotone(bound, Hi(x), BASE);
      Halves(x);
    }
  }

  lemma DWordRange()
    ensures 2 * BASE < BASE * BASE
  {
    BaseAtLeast256();
    MulMonotone(3, BASE, BASE);
  }

  lemma NothingCarried()
    ensures Hi(0) == 0 && HiAsBorrow(0) == 0
  {
    DivModUnique(0, BASE, 0, 0);
  }

  /** One column of a subtraction. */
  lemma BorrowColumn(x: Word, y: Word, borrow: nat)
    requires borrow <= 1 && 0 < BASE * BASE
    ensures var u := DWordSub(DWordSub(x, y), borrow);
            HiAsBorrow(u) <= 1 && Lo(u) - HiAsBorrow(u) * BASE == x - y - borrow
  {
    hide Pow2;
    DWordRange();
    var u := SubtractedTwice(x, y, borrow, BASE * BASE);
    BorrowResult(u, x - y - borrow, BASE, BASE * BASE);
  }

  lemma SubtractedTwice(x: Word, y: Word, borrow: nat, square: nat) returns (u: nat)
    requires borrow <= 1 && 2 * BASE < square == BASE * BASE
    ensures u == DWordSub(DWordSub(x, y), borrow) == if x - y < borrow then x - y - borrow + square else x - y - borrow
  {
    hide Pow2;
    u := DWordSub(DWordSub(x, y), borrow);
    TwiceReduced(x - y, borrow, square);
  }

  lemma BorrowResult(u: nat, v: int, base: int, square: int)
    requires -base <= v < base && 1 < base && square == base * base && u == if v < 0 then v + square else v
    ensures (0 - u / base) % base <= 1 && u % base - (0 - u / base) % base * base == v
  {
    if v < 0 { BorrowOut(u, v, base, square); } else { NothingBorrowed(v, base); }
  }

  lemma TwiceReduced(d: int, borrow: nat, modulus: int)
    requires -modulus < d < modulus && -modulus <= d - borrow
    ensures (d % modulus - borrow) % modulus == if d < borrow then d - borrow + modulus else d - borrow
  {
    DivModUnique(d, modulus, if d < 0 then -1 else 0, if d < 0 then d + modulus else d);
    if 0 <= d < borrow {
      DivModUnique(d - borrow, modulus, -1, d - borrow + modulus);
    } else {
      DivModUnique(if d < 0 then d + modulus - borrow else d - borrow, modulus, 0, if d < 0 then d - borrow + modulus else d - borrow);
    }
  }

  lemma BorrowOut(u: nat, v: int, base: int, square: int)
    requires -base <= v < 0 && 1 < base && square == base * base && u == v + square
    ensures u / base == base - 1 && u % base == v + base
    ensures (0 - (base - 1)) % base == 1
  {
    AddMul(base, -1, base);
    DivModUnique(u, base, base - 1, v + base);
    DivModUnique(0 - (base - 1), base, -1, 1);
  }

  lemma NothingBorrowed(v: int, base: int)
    requires 0 <= v < base
    ensures v / base == 0 && v % base == v && (0 - 0) % base == 0
  {
    DivModUnique(v, base, 0, v);
    DivModUnique(0, base, 0, 0);
  }

  /** A column with carry-in, carry-out extends an equation between numbers by one word. */
  lemma ColumnStep(r: int, x: int, y: int, rw: int, xw: int, yw: int, cin: int, cout: int, scale: int, base: int)
    requires r + cin * scale == x + y
    requires rw + cout * base == xw + yw + cin
    ensures r + rw * scale + cout * (base * scale) == (x + xw * scale) + (y + yw * scale)
  {
    assert rw * scale + cout * (base * scale) == (rw + cout * base) * scale;
  }

  lemma DifferenceStep(r: int, x: int, y: int, rw: int, xw: int, yw: int, bin: int, bout: int, scale: int, base: int)
    requires r - bin * scale == x - y
    requires rw - bout * base == xw - yw - bin
    ensures r + rw * scale - bout * (base * scale) == (x + xw * scale) - (y + yw * scale)
  {
    assert rw * scale - bout * (base * scale) == (rw - bout * base) * scale;
  }

  // ---- Comparison ----

  method Compare(m: array<Word>, a: nat, b: nat, n: nat) returns (r: int)
    requires a + n <= m.Length && b + n <= m.Length
    ensures r == Sign(Num(m[..], a, n) - Num(m[..], b, n))
  {
    hide Num, Scale;
    var i := n;
    ghost var s := m[..];
    while i > 0
      invariant 0 <= i <= n
      invariant SameWords(s, a + i, s, b + i, n - i)
    {
      i := i - 1;
      if m[a + i] > m[b + i] {
        TopWordDecides(s, b, a, i, n);
        return 1;
      } else if m[a + i] < m[b + i] {
        TopWordDecides(s, a, b, i, n);
        return -1;
      }
    }
    NumSame(s, a, s, b, n);
    return 0;
  }

  function Sign(x: int): int {
    if x < 0 then -1 else if x == 0 then 0 else 1
  }

  lemma TopDecides(x: nat, y: nat, w: int, v: int, scale: int)
    requires x < scale && w < v
    ensures x + w * scale < y + v * scale
  {
    MulMonotone(w + 1, v, scale);
  }

  lemma {:induction false} TopWordDecides(s: seq<Word>, a: nat, b: nat, i: nat, n: nat)
    requires i < n && a + n <= |s| && b + n <= |s|
    requires s[a + i] < s[b + i]
    requires SameWords(s, a + i + 1, s, b + i + 1, n - i - 1)
    ensures Num(s, a, n) < Num(s, b, n)
  {
    if i == n - 1 {
      NumBound(s, a, i);
      TopDecides(Num(s, a, i), Num(s, b, i), s[a + i], s[b + i], Scale(i));
    } else {
      TopWordDecides(s, a, b, i, n - 1);
      assert s[a + n - 1] == s[b + n - 1];
    }
  }

  // ---- Addition and subtraction ----

  method Add(m: array<Word>, c: nat, a: nat, b: nat, n: nat) returns (carry: nat)
    requires n % 2 == 0
    requires c + n <= m.Length && a + n <= m.Length && b + n <= m.Length
    requires (c <= a || a + n <= c) && (c <= b || b + n <= c)
    modifies m
    ensures carry <= 1
    ensures Num(m[..], c, n) + carry * Scale(n) == old(Num(m[..], a, n)) + old(Num(m[..], b, n))
    ensures OnlyChanged(old(m[..]), m[..], c, n)
  {
    hide Num, Scale, Hi, HiAsBorrow;
    ghost var s := m[..];
    var u := 0;
    var i := 0;
    NothingCarried();
    NumShort(s, c);
    NumShort(s, a);
    NumShort(s, b);
    while i < n
      invariant i <= n && i % 2 == 0
      invariant Hi(u) <= 1
      invariant OnlyChanged(s, m[..], c, i)
      invariant Num(m[..], c, i) + Hi(u) * Scale(i) == Num(s, a, i) + Num(s, b, i)
    {
      u := AddWord(m, c, a, b, i, u, s);
      u := AddWord(m, c, a, b, i + 1, u, s);
      i := i + 2;
    }
    carry := Hi(u);
  }

  /** One column of Add. */
  method AddWord(m: array<Word>, c: nat, a: nat, b: nat, i: nat, u0: nat, ghost s: seq<Word>) returns (u: nat)
    requires c + i < m.Length && a + i < m.Length && b + i < m.Length
    requires (c <= a || a + i < c) && (c <= b || b + i < c)
    requires Hi(u0) <= 1 && OnlyChanged(s, m[..], c, i)
    requires Num(m[..], c, i) + Hi(u0) * Scale(i) == Num(s, a, i) + Num(s, b, i)
    modifies m
    ensures Hi(u) <= 1
    ensures OnlyChanged(s, m[..], c, i + 1)
    ensures Num(m[..], c, i + 1) + Hi(u) * Scale(i + 1) == Num(s, a, i + 1) + Num(s, b, i + 1)
  {
    hide Num, Scale;
    ghost var t := m[..];
    assert m[a + i] == s[a + i] && m[b + i] == s[b + i];
    u := m[a + i] + m[b + i] + Hi(u0);
    m[c + i] := Lo(u);
    Halves(u);
    HiBound(u, 2);
    NumsKept(t, m[..], c + i, 1);
    NumNext(m[..], c, i);
    NumNext(s, a, i);
    NumNext(s, b, i);
    ColumnStep(Num(t, c, i), Num(s, a, i), Num(s, b, i),
               Lo(u), s[a + i], s[b + i], Hi(u0), Hi(u), Scale(i), BASE);
  }

  method Subtract(m: array<Word>, c: nat, a: nat, b: nat, n: nat) returns (borrow: nat)
    requires n % 2 == 0
    requires c + n <= m.Length && a + n <= m.Length && b + n <= m.Length
    requires (c <= a || a + n <= c) && (c <= b || b + n <= c)
    modifies m
    ensures borrow <= 1
    ensures Num(m[..], c, n) - borrow * Scale(n) == old(Num(m[..], a, n)) - old(Num(m[..], b, n))
    ensures OnlyChanged(old(m[..]), m[..], c, n)
  {
    hide Num, Scale, Hi, HiAsBorrow;
    ghost var s := m[..];
    var u := 0;
    var i := 0;
    NothingCarried();
    NumShort(s, c);
    NumShort(s, a);
    NumShort(s, b);
    while i < n
      invariant i <= n && i % 2 == 0
      invariant HiAsBorrow(u) <= 1
      invariant OnlyChanged(s, m[..], c, i)
      invariant Num(m[..], c, i) - HiAsBorrow(u) * Scale(i) == Num(s, a, i) - Num(s, b, i)
    {
      u := SubtractWord(m, c, a, b, i, u, s);
      u := SubtractWord(m, c, a, b, i + 1, u, s);
      i := i + 2;
    }
    borrow := HiAsBorrow(u);
  }

  /** One column of Subtract. */
  method SubtractWord(m: array<Word>, c: nat, a: nat, b: nat, i: nat, u0: nat, ghost s: seq<Word>) returns (u: nat)
    requires c + i < m.Length && a + i < m.Length && b + i < m.Length
    requires (c <= a || a + i < c) && (c <= b || b + i < c)
    requires HiAsBorrow(u0) <= 1 && OnlyChanged(s, m[..], c, i)
    requires Num(m[..], c, i) - HiAsBorrow(u0) * Scale(i) == Num(s, a, i) - Num(s, b, i)
    modifies m
    ensures HiAsBorrow(u) <= 1
    ensures OnlyChanged(s, m[..], c, i + 1)
    ensures Num(m[..], c, i + 1) - HiAsBorrow(u) * Scale(i + 1) == Num(s, a, i + 1) - Num(s, b, i + 1)
  {
    hide Num, Scale;
    ghost var t := m[..];
    assert m[a + i] == s[a + i] && m[b + i] == s[b + i];
    DWordRange();
    u := DWordSub(DWordSub(m[a + i], m[b + i]), HiAsBorrow(u0));
    BorrowColumn(m[a + i], m[b + i], HiAsBorrow(u0));
    m[c + i] := Lo(u);
    NumsKept(t, m[..], c + i, 1);
    NumNext(m[..], c, i);
    NumNext(s, a, i);
    NumNext(s, b, i);
    DifferenceStep(Num(t, c, i), Num(s, a, i), Num(s, b, i),
                   Lo(u), s[a + i], s[b + i], HiAsBorrow(u0), HiAsBorrow(u), Scale(i), BASE);
  }

  /** Adds the word x to the number at a; the result is the carry out. */
  method Increment(m: array<Word>, a: nat, n: nat, x: Word) returns (carry: nat)
    requires 0 < n && a + n <= m.Length
    modifies m
    ensures carry <= 1
    ensures Num(m[..], a, n) + carry * Scale(n) == old(Num(m[..], a, n)) + x
    ensures OnlyChanged(old(m[..]), m[..], a, n)
  {
    hide Num, Scale;
    ghost var s := m[..];
    var t := m[a];
    m[a] := (t + x) % BASE;
    WrapAdd(t, x);
    NumShort(s, a);
    NumShort(m[..], a);
    if m[a] >= t {
      OneWordRest(s, m[..], a, n, 1);
      return 0;
    }
    var i := 1;
    while i < n
      invariant 1 <= i <= n
      invariant OnlyChanged(s, m[..], a, i)
      invariant Num(m[..], a, i) + Scale(i) == Num(s, a, i) + x
    {
      ghost var before := m[..];
      WrapAdd(m[a + i], 1);
      m[a + i] := (m[a + i] + 1) % BASE;
      NumsKept(before, m[..], a + i, 1);
      NumNext(m[..], a, i);
      NumNext(s, a, i);
      CarryStep(Num(before, a, i), Num(s, a, i), m[a + i], s[a + i], x,
                if m[a + i] == 0 then 1 else 0, Scale(i), BASE);
      i := i + 1;
      if m[a + i - 1] != 0 {
        OneWordRest(s, m[..], a, n, i);
        return 0;
      }
    }
    return 1;
  }

  lemma WrapAdd(t: Word, x: Word)
    ensures (t + x) % BASE == if t + x < BASE then t + x else t + x - BASE
  {
    DivModUnique(t + x, BASE, if t + x < BASE then 0 else 1, if t + x < BASE then t + x else t + x - BASE);
  }

  lemma WrapSub(t: Word, x: Word)
    ensures (t - x) % BASE == if t < x then t - x + BASE else t - x
  {
    DivModUnique(t - x, BASE, if t < x then -1 else 0, if t < x then t - x + BASE else t - x);
  }

  lemma CarryStep(r: int, y: int, rw: int, yw: int, x: int, cout: int, scale: int, base: int)
    requires r + scale == y + x && rw + cout * base == yw + 1
    ensures r + rw * scale + cout * (base * scale) == y + yw * scale + x
  {
    assert rw * scale + cout * (base * scale) == (rw + cout * base) * scale;
  }

  /** If only the first i words changed, the two numbers differ as their first i words do. */
  lemma OneWordRest(s: seq<Word>, t: seq<Word>, a: nat, n: nat, i: nat)
    requires i <= n && a + n <= |s| && OnlyChanged(s, t, a, i)
    ensures Num(t, a, n) - Num(s, a, n) == Num(t, a, i) - Num(s, a, i)
  {
    NumSplit(s, a, i, n - i);
    NumSplit(t, a, i, n - i);
    NumSame(t, a + i, s, a + i, n - i);
  }

  /** Subtracts the word x from the number at a; the result is the borrow out. */
  method Decrement(m: array<Word>, a: nat, n: nat, x: Word) returns (borrow: nat)
    requires 0 < n && a + n <= m.Length
    modifies m
    ensures borrow <= 1
    ensures Num(m[..], a, n) - borrow * Scale(n) == old(Num(m[..], a, n)) - x
    ensures OnlyChanged(old(m[..]), m[..], a, n)
  {
    hide Num, Scale;
    ghost var s := m[..];
    var t := m[a];
    m[a] := (t - x) % BASE;
    WrapSub(t, x);
    NumShort(s, a);
    NumShort(m[..], a);
    if m[a] <= t {
      OneWordRest(s, m[..], a, n, 1);
      return 0;
    }
    var i := 1;
    while i < n
      invariant 1 <= i <= n
      invariant OnlyChanged(s, m[..], a, i)
      invariant Num(m[..], a, i) - Scale(i) == Num(s, a, i) - x
    {
      ghost var before := m[..];
      var w := m[a + i];
      WrapSub(w, 1);
      m[a + i] := (w - 1) % BASE;
      NumsKept(before, m[..], a + i, 1);
      NumNext(m[..], a, i);
      NumNext(s, a, i);
      BorrowStep(Num(before, a, i), Num(s, a, i), m[a + i], s[a + i], x,
                 if w == 0 then 1 else 0, Scale(i), BASE);
      i := i + 1;
      if w != 0 {
        OneWordRest(s, m[..], a, n, i);
        return 0;
      }
    }
    return 1;
  }

  lemma BorrowStep(r: int, y: int, rw: int, yw: int, x: int, cout: int, scale: int, base: int)
    requires r - scale == y - x && rw - cout * base == yw - 1
    ensures r + rw * scale - cout * (base * scale) == y + yw * scale - x
  {
    assert rw * scale - cout * (base * scale) == (rw - cout * base) * scale;
  }

  /** Negation modulo BASE^n. */
  method TwosComplement(m: array<Word>, a: nat, n: nat)
    requires 0 < n && a + n <= m.Length
    modifies m
    ensures Num(m[..], a, n) == if old(Num(m[..], a, n)) == 0 then 0 else Scale(n) - old(Num(m[..], a, n))
    ensures OnlyChanged(old(m[..]), m[..], a, n)
  {
    hide Num, Scale;
    var borrow := Decrement(m, a, n, 1);
    ghost var s := m[..];
    NumShort(s, a);
    for i := 0 to n
      invariant OnlyChanged(s, m[..], a, i)
      invariant Num(m[..], a, i) + Num(s, a, i) == Scale(i) - 1
    {
      ghost var before := m[..];
      m[a + i] := BASE - 1 - m[a + i];
      NumsKept(before, m[..], a + i, 1);
      NumNext(m[..], a, i);
      NumNext(s, a, i);
      ComplementStep(Num(before, a, i), Num(s, a, i), m[a + i], s[a + i], Scale(i), BASE);
    }
    NumBound(old(m[..]), a, n);
    NumBound(s, a, n);
  }

  lemma ComplementStep(r: int, y: int, rw: int, yw: int, scale: int, base: int)
    requires r + y == scale - 1 && rw + yw == base - 1
    ensures r + rw * scale + (y + yw * scale) == base * scale - 1
  {
    assert rw * scale + yw * scale == (base - 1) * scale;
  }

  // ---- One-word multiplication ----

  /** c := a * x, the top word returned. */
  method LinearMultiply(m: array<Word>, c: nat, a: nat, x: Word, n: nat) returns (carry: Word)
    requires c + n <= m.Length && a + n <= m.Length
    requires c <= a || a + n <= c
    modifies m
    ensures Num(m[..], c, n) + carry * Scale(n) == old(Num(m[..], a, n)) * x
    ensures OnlyChanged(old(m[..]), m[..], c, n)
  {
    hide Num, Scale;
    ghost var s := m[..];
    carry := 0;
    NumShort(s, c);
    NumShort(s, a);
    for i := 0 to n
      invariant OnlyChanged(s, m[..], c, i)
      invariant Num(m[..], c, i) + carry * Scale(i) == Num(s, a, i) * x
    {
      ghost var before := m[..];
      assert m[a + i] == s[a + i];
      var p := m[a + i] * x + carry;
      ProductFits(m[a + i], x, carry);
      m[c + i] := Lo(p);
      Halves(p);
      NumsKept(before, m[..], c + i, 1);
      NumNext(m[..], c, i);
      NumNext(s, a, i);
      LinearStep(Num(before, c, i), Num(s, a, i), Lo(p), s[a + i], x, carry, Hi(p), Scale(i), BASE);
      carry := Hi(p);
    }
  }

  /** A product of two words plus a word fits a double word. */
  lemma DigitsBelow(x: nat, y: nat, z: nat, base: nat)
    requires x < base && y < base && z < base
    ensures 0 <= x * y && x * y + z < base * base
  {
    NatProduct(x, y);
    MulMonotone(x + 1, base, y);
    AddMul(x, 1, y);
    MulMonotone(y + 1, base, base);
    AddMul(y, 1, base);
    MulComm(base, y);
  }

  lemma ProductFits(x: Word, y: Word, z: Word)
    ensures 0 <= x * y
    ensures x * y + z < BASE * BASE && Hi(x * y + z) < BASE
  {
    DigitsBelow(x, y, z, BASE);
    HiBound(x * y + z, BASE);
  }

  lemma LinearStep(r: int, y: int, rw: int, yw: int, x: int, cin: int, cout: int, scale: int, base: int)
    requires r + cin * scale == y * x && cout * base + rw == yw * x + cin
    ensures r + rw * scale + cout * (base * scale) == (y + yw * scale) * x
  {
    assert rw * scale + cout * (base * scale) == (cout * base + rw) * scale;
    assert (yw * x + cin) * scale == yw * scale * x + cin * scale;
  }

  // ---- Filling and copying ----

  method SetWords(m: array<Word>, r: nat, x: Word, n: nat)
    requires r + n <= m.Length
    modifies m
    ensures forall i :: r <= i < r + n ==> m[i] == x
    ensures OnlyChanged(old(m[..]), m[..], r, n)
  {
    hide Num, Scale;
    for i := 0 to n
      invariant forall j :: r <= j < r + i ==> m[j] == x
      invariant OnlyChanged(old(m[..]), m[..], r, i)
    {
      m[r + i] := x;
    }
  }

  method CopyWords(m: array<Word>, r: nat, a: nat, n: nat)
    requires r + n <= m.Length && a + n <= m.Length
    requires r <= a || a + n <= r
    modifies m
    ensures SameWords(m[..], r, old(m[..]), a, n)
    ensures Num(m[..], r, n) == old(Num(m[..], a, n))
    ensures OnlyChanged(old(m[..]), m[..], r, n)
  {
    hide Num, Scale;
    ghost var s := m[..];
    for i := 0 to n
      invariant forall j {:trigger m[j]} :: r <= j < r + i ==> m[j] == s[j - r + a]
      invariant OnlyChanged(s, m[..], r, i)
    {
      m[r + i] := m[a + i];
    }
    NumSame(m[..], r, s, a, n);
  }
}
