/** The unrolled multiplications at the bottom of the recursion. */
module SmallMultiply {
  import opened Integers
  import opened Words
  import opened WordArithmetic

  function DWordAdd(x: nat, y: nat): nat
    requires 0 < BASE * BASE
  {
    DivModUnique(x + y, BASE * BASE, (x + y) / (BASE * BASE), (x + y) % (BASE * BASE));
    (x + y) % (BASE * BASE)
  }

  lemma ModAdd(x: int, y: int, n: int)
    requires 0 < n
    ensures (x % n + y) % n == (x + y) % n
  {
    var q := (x + y) / n;
    assert x == (x / n) * n + x % n;
    assert x + y == q * n + (x + y) % n;
    assert (q - x / n) * n == q * n - (x / n) * n;
    DivModUnique(x % n + y, n, q - x / n, (x + y) % n);
  }

  /** The full product of two words. */
  function WordMul(x: Word, y: Word): (r: nat)
    ensures r < BASE * BASE
  {
    ProductFits(x, y, 0);
    x * y
  }

  // ---- Two words by two words ----

  /** The differences D[di] and D[di + 2] whose product is (A1 - A0)(B0 - B1) up to the multiple s of BASE. */
  method SelectDifferences(a0: Word, a1: Word, b0: Word, b1: Word) returns (x: Word, y: Word, s: Word)
    ensures x * y - s * BASE == (a1 - a0) * (b0 - b1)
  {
    var D0, D1, D2, D3 := (a1 - a0) % BASE, (a0 - a1) % BASE, (b0 - b1) % BASE, (b1 - b0) % BASE;
    WrapSub(a1, a0);
    WrapSub(a0, a1);
    WrapSub(b0, b1);
    WrapSub(b1, b0);
    var ai := if a1 < a0 then 1 else 0;
    var bi := if b0 < b1 then 1 else 0;
    var di := if ai == 1 && bi == 1 then 1 else 0;
    x, y := if di == 0 then D0 else D1, if di == 0 then D2 else D3;
    D1, D3 := 0, 0;
    var si := ai + 1 - bi;
    s := if si == 0 then D0 else if si == 1 then D1 else D2;
    WrappedProduct(a1 - a0, b0 - b1, BASE);
  }

  lemma WrappedProduct(u: int, v: int, base: int)
    ensures u * (v + base) - u * base == u * v
    ensures (u + base) * v - v * base == u * v
    ensures (-u) * (-v) == u * v
  {
  }

  ghost function Two(lo: int, hi: int): int {
    lo + hi * BASE
  }

  lemma NumTwo(s: seq<Word>, p: nat)
    requires p + 2 <= |s|
    ensures Num(s, p, 2) == Two(s[p], s[p + 1])
  {
    assert Scale(0) == 1;
    assert Scale(1) == BASE;
    assert Num(s, p, 0) == 0;
    assert Num(s, p, 1) == s[p];
  }

  lemma NumFour(s: seq<Word>, p: nat)
    requires p + 4 <= |s|
    ensures Num(s, p, 4) == Two(s[p], s[p + 1]) + BASE * BASE * Two(s[p + 2], s[p + 3])
    ensures Scale(4) == BASE * BASE * (BASE * BASE)
  {
    NumTwo(s, p);
    NumTwo(s, p + 2);
    NumSplit(s, p, 2, 2);
    assert Scale(1) == BASE;
    assert Scale(2) == BASE * Scale(1);
    ScaleAdd(2, 2);
  }

  /** What the columns of Multiply2 add up to. */
  lemma CrossProducts(a0: int, a1: int, b0: int, b1: int, base: int)
    ensures (a0 + a1 * base) * (b0 + b1 * base)
         == a0 * b0 + base * (a0 * b0 + a1 * b1 + (a1 - a0) * (b0 - b1)) + base * base * (a1 * b1)
  {
    OuterTerms(a0, a1, b0, b1, base);
    CrossTerm(a0, a1, b0, b1);
  }

  lemma OuterTerms(a0: int, a1: int, b0: int, b1: int, base: int)
    ensures (a0 + a1 * base) * (b0 + b1 * base) == a0 * b0 + base * (a0 * b1 + a1 * b0) + base * base * (a1 * b1)
  {
  }

  lemma CrossTerm(a0: int, a1: int, b0: int, b1: int)
    ensures a0 * b1 + a1 * b0 == a0 * b0 + a1 * b1 + (a1 - a0) * (b0 - b1)
  {
  }

  lemma ColumnsOfTwo(pl: int, ph: int, ql: int, qh: int, dl: int, dh: int, s: int, c1: int, t: int, base: int)
    requires pl + ph + dl + ql == t * base + c1
    ensures (pl + c1 * base) + base * base * (qh * base + ql + t + ph + dh + qh - s)
         == (ph * base + pl) + base * ((ph * base + pl) + (qh * base + ql) + (dh * base + dl - s * base))
            + base * base * (qh * base + ql)
  {
    assert base * (pl + ph + dl + ql) == base * (t * base) + base * c1;
    assert base * base * (t + ph + dh + qh - s) == base * (t * base) + base * (ph * base) + base * (dh * base) + base * (qh * base) - base * (s * base);
    assert base * base * (qh * base + ql + t + ph + dh + qh - s) == base * base * (qh * base + ql) + base * base * (t + ph + dh + qh - s);
  }

  /** The four product words, by one cross product instead of two. */
  method ProductWords(a0: Word, a1: Word, b0: Word, b1: Word) returns (c0: Word, c1: Word, c2: Word, c3: Word)
    ensures Two(c0, c1) + BASE * BASE * Two(c2, c3) == Two(a0, a1) * Two(b0, b1)
  {
    DWordRange();
    var x, y, s := SelectDifferences(a0, a1, b0, b1);
    var d, p, q := WordMul(x, y), WordMul(a0, b0), WordMul(a1, b1);
    c0 := Lo(p);
    var t := Hi(p) + Lo(p) + Lo(d) + Lo(q);
    c1 := Lo(t);
    TopDoubleWord(a0, a1, b0, b1, d, s, p, q, t);
    c2, c3 := TopWords(q, Hi(t), Hi(p), Hi(d), Hi(q), s);
  }

  /** The last line of Multiply2: a double-word sum that may wrap before s is taken off. */
  method TopWords(q: nat, x: nat, y: nat, z: nat, w: nat, s: nat) returns (c2: Word, c3: Word)
    requires 0 <= q + x + y + z + w - s < BASE * BASE
    ensures Two(c2, c3) == q + x + y + z + w - s
  {
    var t := DWordAdd(DWordAdd(DWordAdd(DWordAdd(q, x), y), z), w);
    SumWraps(q, x, y, z, w);
    ghost var top := q + x + y + z + w - s;
    ModAdd(q + x + y + z + w, top - (q + x + y + z + w), BASE * BASE);
    t := DWordSub(t, s);
    DivModUnique(top, BASE * BASE, 0, top);
    HiBound(t, BASE);
    Halves(t);
    c2, c3 := Lo(t), Hi(t);
  }

  lemma SumWraps(q: nat, x: nat, y: nat, z: nat, w: nat)
    requires 0 < BASE * BASE
    ensures DWordAdd(DWordAdd(DWordAdd(DWordAdd(q, x), y), z), w) == (q + x + y + z + w) % (BASE * BASE)
  {
    DWordAddTwice(q, x, y);
    DWordAddTwice(q, x + y, z);
    DWordAddTwice(q, x + y + z, w);
  }

  lemma DWordAddTwice(x: nat, y: nat, z: nat)
    requires 0 < BASE * BASE
    ensures DWordAdd(DWordAdd(x, y), z) == DWordAdd(x, y + z)
  {
    ModAdd(x + y, z, BASE * BASE);
  }

  /** The top double word fits, and with the two low words it is the product. */
  lemma TopDoubleWord(a0: Word, a1: Word, b0: Word, b1: Word, d: nat, s: nat, p: nat, q: nat, t: nat)
    requires d - s * BASE == (a1 - a0) * (b0 - b1)
    requires p == WordMul(a0, b0) && q == WordMul(a1, b1)
    requires t == Hi(p) + Lo(p) + Lo(d) + Lo(q)
    ensures var top := q + Hi(t) + Hi(p) + Hi(d) + Hi(q) - s;
            0 <= top < BASE * BASE &&
            Two(Lo(p), Lo(t)) + BASE * BASE * top == Two(a0, a1) * Two(b0, b1)
  {
    Halves(p);
    Halves(q);
    Halves(d);
    Halves(t);
    ColumnsOfTwo(Lo(p), Hi(p), Lo(q), Hi(q), Lo(d), Hi(d), s, Lo(t), Hi(t), BASE);
    CrossProducts(a0, a1, b0, b1, BASE);
    ProductOfTwo(a0, a1, b0, b1, BASE);
    TopFits(Lo(p), Lo(t), q + Hi(t) + Hi(p) + Hi(d) + Hi(q) - s, Two(a0, a1) * Two(b0, b1), BASE);
  }

  lemma ProductOfTwo(a0: nat, a1: nat, b0: nat, b1: nat, base: nat)
    requires a0 < base && a1 < base && b0 < base && b1 < base
    ensures 0 <= (a0 + a1 * base) * (b0 + b1 * base) < base * base * (base * base)
  {
    TopWordBound(a0, a1, base, base);
    TopWordBound(b0, b1, base, base);
    ProductBelow(a0 + a1 * base, b0 + b1 * base, base * base, base * base);
  }

  lemma TopFits(lo: nat, hi: nat, top: int, product: int, base: nat)
    requires lo < base && hi < base && 0 <= product < base * base * (base * base)
    requires lo + hi * base + base * base * top == product
    ensures 0 <= top < base * base
  {
    TopWordBound(lo, hi, base, base);
    NatProduct(hi, base);
    TopInRange(lo + hi * base, top, product, base * base);
  }

  lemma TopInRange(low: nat, top: int, product: int, q: nat)
    requires low < q && low + q * top == product && 0 <= product < q * q
    ensures 0 <= top < q
  {
    if top < 0 {
      MulMonotone(top, -1, q);
      MulComm(top, q);
    } else if q <= top {
      MulMonotone(q, top, q);
      MulComm(top, q);
    }
  }

  method Multiply2(m: array<Word>, c: nat, a: nat, b: nat)
    requires c + 4 <= m.Length && a + 2 <= m.Length && b + 2 <= m.Length
    requires Disjoint(c, 4, a, 2) && Disjoint(c, 4, b, 2)
    modifies m
    ensures Num(m[..], c, 4) == Product(old(m[..]), a, b, 2)
    ensures OnlyChanged(old(m[..]), m[..], c, 4)
  {
    NumTwo(m[..], a);
    NumTwo(m[..], b);
    var c0, c1, c2, c3 := ProductWords(m[a], m[a + 1], m[b], m[b + 1]);
    m[c], m[c + 1], m[c + 2], m[c + 3] := c0, c1, c2, c3;
    NumFour(m[..], c);
  }

  method Multiply2Bottom(m: array<Word>, c: nat, a: nat, b: nat)
    requires c + 2 <= m.Length && a + 2 <= m.Length && b + 2 <= m.Length
    requires Disjoint(c, 2, a, 2) && Disjoint(c, 2, b, 2)
    modifies m
    ensures Num(m[..], c, 2) == Product(old(m[..]), a, b, 2) % Scale(2)
    ensures OnlyChanged(old(m[..]), m[..], c, 2)
  {
    hide Num, Scale;
    NumTwo(m[..], a);
    NumTwo(m[..], b);
    var t := WordMul(m[a], m[b]);
    var cross := (Hi(t) + WordMul(m[a], m[b + 1]) + WordMul(m[a + 1], m[b])) % BASE;
    Halves(t);
    BottomOfTwo(m[a], m[a + 1], m[b], m[b + 1], Lo(t), Hi(t), BASE);
    ScaleTwo();
    m[c], m[c + 1] := Lo(t), cross;
    NumTwo(m[..], c);
  }

  lemma BottomOfTwo(a0: nat, a1: nat, b0: nat, b1: nat, lo: nat, hi: nat, base: nat)
    requires lo < base && hi * base + lo == a0 * b0
    ensures (a0 + a1 * base) * (b0 + b1 * base) % (base * base) == lo + (hi + a0 * b1 + a1 * b0) % base * base
  {
    var cross := hi + a0 * b1 + a1 * b0;
    var q, r := cross / base, cross % base;
    assert cross == q * base + r;
    TopWordBound(lo, r, base, base);
    SchoolTwo(a0, a1, b0, b1, base);
    assert (hi + (a0 * b1 + a1 * b0)) * base == hi * base + (a0 * b1 + a1 * b0) * base;
    KeepLow(lo, q, r, cross, a1 * b1, base);
    DivModUnique((a0 + a1 * base) * (b0 + b1 * base), base * base, q + a1 * b1, lo + r * base);
  }

  lemma SchoolTwo(a0: int, a1: int, b0: int, b1: int, base: int)
    ensures (a0 + a1 * base) * (b0 + b1 * base) == a0 * b0 + (a0 * b1 + a1 * b0) * base + a1 * b1 * (base * base)
  {
    assert (a0 + a1 * base) * (b0 + b1 * base) == a0 * b0 + a0 * (b1 * base) + a1 * base * b0 + a1 * base * (b1 * base);
    assert a1 * base * (b1 * base) == a1 * b1 * (base * base);
  }

  lemma KeepLow(lo: int, q: int, r: int, cross: int, high: int, base: int)
    requires cross == q * base + r
    ensures lo + cross * base + high * (base * base) == (q + high) * (base * base) + (lo + r * base)
  {
    assert (q * base + r) * base == q * (base * base) + r * base;
  }

  // ---- Two words by two words, added in place ----

  method Multiply2Add(m: array<Word>, c: nat, a: nat, b: nat) returns (carry: Word)
    requires c + 4 <= m.Length && a + 2 <= m.Length && b + 2 <= m.Length
    requires Disjoint(c, 4, a, 2) && Disjoint(c, 4, b, 2)
    modifies m
    ensures carry <= 1
    ensures Num(m[..], c, 4) + carry * Scale(4)
         == old(Num(m[..], c, 4)) + Product(old(m[..]), a, b, 2)
    ensures OnlyChanged(old(m[..]), m[..], c, 4)
  {
    ghost var s0 := m[..];
    NumTwo(s0, a);
    NumTwo(s0, b);
    NumFour(s0, c);
    var r0, r1, r2, r3;
    r0, r1, r2, r3, carry := ProductAddWords(m[a], m[a + 1], m[b], m[b + 1], m[c], m[c + 1], m[c + 2], m[c + 3]);
    m[c], m[c + 1], m[c + 2], m[c + 3] := r0, r1, r2, r3;
    NumFour(m[..], c);
    NumBound(s0, c, 4);
    ProductOfTwo(s0[a], s0[a + 1], s0[b], s0[b + 1], BASE);
    CarryAtMostOne(Num(m[..], c, 4), carry, Scale(4), Num(s0, c, 4) + Num(s0, a, 2) * Num(s0, b, 2));
  }

  lemma CarryAtMostOne(r: nat, carry: nat, scale: nat, total: nat)
    requires r + carry * scale == total < 2 * scale
    ensures carry <= 1
  {
    if 2 <= carry { MulMonotone(2, carry, scale); }
  }

  method ProductAddWords(a0: Word, a1: Word, b0: Word, b1: Word, c0: Word, c1: Word, c2: Word, c3: Word)
      returns (r0: Word, r1: Word, r2: Word, r3: Word, carry: Word)
    ensures Two(r0, r1) + BASE * BASE * Two(r2, r3) + carry * (BASE * BASE * (BASE * BASE))
         == Two(c0, c1) + BASE * BASE * Two(c2, c3) + Two(a0, a1) * Two(b0, b1)
  {
    DWordRange();
    var x, y, s := SelectDifferences(a0, a1, b0, b1);
    var d, p, q := WordMul(x, y), WordMul(a0, b0), WordMul(a1, b1);
    var t0 := p + c0;
    r0 := Lo(t0);
    var t1 := Hi(t0) + Lo(p) + Lo(d) + Lo(q) + c1;
    r1 := Lo(t1);
    LowColumns(a0, a1, b0, b1, c0, c1, d, s, p, q, t0, t1);
    HighHalvesFit(c0, c1, d, p, q, t0, t1);
    r2, r3, carry := HighColumns(Hi(t1), Lo(q), Hi(p), Hi(d), Hi(q), s, c2, c3);
    AddColumns(r0, r1, Two(r2, r3), carry, Hi(t1) + Lo(q) + Hi(p) + Hi(d) + Hi(q) - s, Hi(q), Two(c0, c1), c2, c3, Two(a0, a1) * Two(b0, b1), BASE);
  }

  /** The last two columns; the intermediate sum never goes below zero, so taking s off borrows nothing. */
  method HighColumns(t1: nat, ql: Word, ph: nat, dh: nat, qh: nat, s: Word, c2: Word, c3: Word) returns (r2: Word, r3: Word, carry: Word)
    requires t1 + ql + ph + dh + qh - s >= 0
    requires t1 <= 5 && ph < BASE && dh < BASE && qh < BASE
    ensures Two(r2, r3) + carry * (BASE * BASE) == (t1 + ql + ph + dh + qh - s + c2) + (qh + c3) * BASE
  {
    var t2 := t1 + ql + ph + dh + qh - s + c2;
    r2 := Lo(t2);
    var t3 := Hi(t2) + qh + c3;
    r3 := Lo(t3);
    Halves(t2);
    Halves(t3);
    BaseAtLeast256();
    HiBound(t2, 6);
    HiBound(t3, 3);
    carry := Hi(t3);
    HighStep(Hi(t2), r2, carry, r3, qh + c3, BASE);
  }

  lemma HighStep(h2: int, r2: int, h3: int, r3: int, x: int, base: int)
    requires h3 * base + r3 == h2 + x
    ensures r2 + r3 * base + h3 * (base * base) == (h2 * base + r2) + x * base
  {
    assert (h3 * base + r3) * base == h3 * (base * base) + r3 * base;
    assert (h2 + x) * base == h2 * base + x * base;
  }

  lemma LowColumns(a0: Word, a1: Word, b0: Word, b1: Word, c0: Word, c1: Word,
                   d: nat, s: nat, p: nat, q: nat, t0: nat, t1: nat)
    requires d - s * BASE == (a1 - a0) * (b0 - b1)
    requires p == WordMul(a0, b0) && q == WordMul(a1, b1)
    requires t0 == p + c0 && t1 == Hi(t0) + Lo(p) + Lo(d) + Lo(q) + c1
    ensures var mid := Hi(t1) + Lo(q) + Hi(p) + Hi(d) + Hi(q) - s;
            mid >= 0 &&
            Two(Lo(t0), Lo(t1)) + BASE * BASE * (mid + Hi(q) * BASE) == Two(c0, c1) + Two(a0, a1) * Two(b0, b1)
  {
    Halves(p);
    Halves(q);
    Halves(d);
    Halves(t0);
    Halves(t1);
    CrossProducts(a0, a1, b0, b1, BASE);
    AddLowColumns(Lo(p), Hi(p), Lo(q), Hi(q), Lo(d), Hi(d), s, c0, c1, Lo(t0), Hi(t0), Lo(t1), Hi(t1), BASE);
    CrossTerms(a0, a1, b0, b1);
    NoBorrow(a0 * b1 + a1 * b0, Lo(p), Hi(p), Lo(q), Hi(q), Lo(d), Hi(d), s, Hi(t1), Lo(t1), Hi(t0) + c1, BASE);
  }

  lemma CrossTerms(a0: nat, a1: nat, b0: nat, b1: nat)
    ensures 0 <= a0 * b1 + a1 * b0 == a0 * b0 + a1 * b1 + (a1 - a0) * (b0 - b1)
  {
  }

  lemma HighHalvesFit(c0: Word, c1: Word, d: nat, p: nat, q: nat, t0: nat, t1: nat)
    requires d < BASE * BASE && p < BASE * BASE && q < BASE * BASE && t0 == p + c0
    requires t1 == Hi(t0) + Lo(p) + Lo(d) + Lo(q) + c1
    ensures Hi(p) < BASE && Hi(d) < BASE && Hi(q) < BASE && Hi(t1) <= 5
  {
    HiBound(p, BASE);
    HiBound(q, BASE);
    HiBound(d, BASE);
    assert t0 < (BASE + 1) * BASE;
    HiBound(t0, BASE + 1);
    HiBound(t1, 6);
  }

  lemma AddLowColumns(pl: int, ph: int, ql: int, qh: int, dl: int, dh: int, s: int, c0: int, c1: int,
                      l0: int, h0: int, l1: int, h1: int, base: int)
    requires ph * base + pl + c0 == h0 * base + l0
    requires h0 + pl + dl + ql + c1 == h1 * base + l1
    ensures (l0 + l1 * base) + base * base * (h1 + ql + ph + dh + qh - s + qh * base)
         == c0 + c1 * base + ((ph * base + pl) + base * ((ph * base + pl) + (qh * base + ql) + (dh * base + dl - s * base))
            + base * base * (qh * base + ql))
  {
    assert base * (h0 + pl + dl + ql + c1) == base * (h1 * base) + base * l1;
    assert base * base * (h1 + ql + ph + dh + qh - s + qh * base)
        == base * (h1 * base) + base * base * (qh * base + ql) + base * (ph * base) + base * (dh * base) + base * (qh * base) - base * (s * base);
  }

  lemma NoBorrow(cross: nat, pl: nat, ph: nat, ql: nat, qh: nat, dl: nat, dh: nat, s: nat, h: nat, l: nat, rest: nat, base: nat)
    requires l < base && h * base + l == rest + pl + dl + ql
    requires cross == (ph * base + pl) + (qh * base + ql) + (dh * base + dl - s * base)
    ensures h + ql + ph + dh + qh - s >= 0
  {
    var mid := h + ph + dh + qh - s;
    assert mid * base == h * base + ph * base + dh * base + qh * base - s * base;
    if mid < 0 {
      MulMonotone(mid, -1, base);
    }
  }

  lemma AddColumns(l0: int, l1: int, high: int, carry: int, mid: int, qh: int, low: int, c2: int, c3: int, product: int, base: int)
    requires (l0 + l1 * base) + base * base * (mid + qh * base) == low + product
    requires high + carry * (base * base) == (mid + c2) + (qh + c3) * base
    ensures (l0 + l1 * base) + base * base * high + carry * (base * base * (base * base))
         == low + base * base * (c2 + c3 * base) + product
  {
    assert base * base * (high + carry * (base * base)) == base * base * high + carry * (base * base * (base * base));
    assert base * base * ((mid + c2) + (qh + c3) * base) == base * base * (mid + qh * base) + base * base * (c2 + c3 * base);
  }
}
