/** Shifting numbers by bits and by words, and the bit length of a word. */
module Shifts {
  import opened Integers
  import opened Words
  import opened WordArithmetic

  lemma WordSplit(k: nat)
    requires k <= WORD_BITS
    ensures BASE == Pow2(k) * Pow2(WORD_BITS - k)
  {
    Pow2Add(k, WORD_BITS - k);
  }

  /** A word shifted left by k bits: what stays in the word, and what leaves it. */
  lemma LeftShiftParts(u: Word, k: nat) returns (low: nat, high: nat)
    requires 0 < k < WORD_BITS
    ensures high == u / Pow2(WORD_BITS - k) && high < Pow2(k)
    ensures u * Pow2(k) == high * BASE + low * Pow2(k) && low < Pow2(WORD_BITS - k)
    ensures u * Pow2(k) % BASE == low * Pow2(k)
  {
    WordSplit(k);
    var p, q := Pow2(k), Pow2(WORD_BITS - k);
    high := u / q;
    low := u % q;
    QuotientSmall(u, high, low, p, q);
    ShiftedParts(u, high, low, p, q, BASE);
  }

  lemma ShiftedParts(u: nat, high: nat, low: nat, p: nat, q: nat, base: nat)
    requires base == p * q && u == high * q + low && low < q && 0 < p
    ensures u * p == high * base + low * p && u * p % base == low * p
  {
    assert (high * q + low) * p == high * (p * q) + low * p;
    MulMonotone(low, q - 1, p);
    NatProduct(low, p);
    DivModUnique(u * p, base, high, low * p);
  }

  lemma QuotientSmall(u: nat, high: int, low: nat, p: nat, q: nat)
    requires u == high * q + low && u < p * q && low < q
    ensures 0 <= high < p
  {
    if high < 0 { MulMonotone(high, -1, q); } else if p <= high { MulMonotone(p, high, q); }
  }

  method ShiftWordsLeftByBits(m: array<Word>, r: nat, n: nat, k: nat) returns (carry: Word)
    requires r + n <= m.Length && k < WORD_BITS
    modifies m
    ensures carry < Pow2(k)
    ensures Num(m[..], r, n) + carry * Scale(n) == old(Num(m[..], r, n)) * Pow2(k)
    ensures OnlyChanged(old(m[..]), m[..], r, n)
  {
    hide Num, Scale, BitOr, Pow2;
    carry := 0;
    ghost var s := m[..];
    Pow2Zero();
    if k != 0 {
      NumShort(s, r);
      for i := 0 to n
        invariant carry < Pow2(k)
        invariant OnlyChanged(s, m[..], r, i)
        invariant Num(m[..], r, i) + carry * Scale(i) == Num(s, r, i) * Pow2(k)
      {
        carry := ShiftLeftWord(m, r, i, k, carry, s);
      }
    }
  }

  lemma Pow2Zero()
    ensures Pow2(0) == 1
  {
  }

  method ShiftLeftWord(m: array<Word>, r: nat, i: nat, k: nat, carry0: Word, ghost s: seq<Word>) returns (carry: Word)
    requires r + i < m.Length && 0 < k < WORD_BITS && carry0 < Pow2(k) && OnlyChanged(s, m[..], r, i)
    requires Num(m[..], r, i) + carry0 * Scale(i) == Num(s, r, i) * Pow2(k)
    modifies m
    ensures carry < Pow2(k)
    ensures OnlyChanged(s, m[..], r, i + 1)
    ensures Num(m[..], r, i + 1) + carry * Scale(i + 1) == Num(s, r, i + 1) * Pow2(k)
  {
    hide Num, Scale, BitOr, Pow2;
    ghost var t := m[..];
    var u := m[r + i];
    ghost var low, high := LeftShiftParts(u, k);
    BitOrDisjoint(low, carry0, k);
    JoinedFits(low, carry0, Pow2(k), Pow2(WORD_BITS - k), k);
    m[r + i] := BitOr(u * Pow2(k) % BASE, carry0);
    carry := u / Pow2(WORD_BITS - k);
    WordSplit(k);
    NumsKept(t, m[..], r + i, 1);
    NumNext(m[..], r, i);
    NumNext(s, r, i);
    LinearStep(Num(t, r, i), Num(s, r, i), m[r + i], u, Pow2(k), carry0, carry, Scale(i), BASE);
  }

  lemma JoinedFits(low: nat, carry: nat, p: nat, q: nat, k: nat)
    requires low < q && carry < p && k < WORD_BITS && p == Pow2(k) && q == Pow2(WORD_BITS - k)
    ensures 0 <= low * p + carry < BASE && p <= BASE
  {
    hide Pow2;
    NatProduct(low, p);
    WordSplit(k);
    MulMonotone(low + 1, q, p);
    MulMonotone(1, q, p);
  }

  // ---- Right by bits ----

  method ShiftWordsRightByBits(m: array<Word>, r: nat, n: nat, k: nat) returns (carry: Word)
    requires r + n <= m.Length && k < WORD_BITS
    modifies m
    ensures Num(m[..], r, n) == old(Num(m[..], r, n)) / Pow2(k)
    ensures carry == old(Num(m[..], r, n)) % Pow2(k) * Pow2(WORD_BITS - k) % BASE
    ensures OnlyChanged(old(m[..]), m[..], r, n)
  {
    hide Num, Scale, BitOr, Pow2;
    carry := 0;
    ghost var s := m[..];
    Pow2Zero();
    ghost var rest := 0;
    if k != 0 {
      NumShort(s, r + n);
      var i := n;
      while i > 0
        invariant 0 <= i <= n
        invariant SameWords(m[..], r, s, r, i) && OnlyChanged(s, m[..], r + i, n - i)
        invariant rest < Pow2(k) && carry == rest * Pow2(WORD_BITS - k)
        invariant Num(s, r + i, n - i) == Num(m[..], r + i, n - i) * Pow2(k) + rest
      {
        i := i - 1;
        carry, rest := ShiftRightWord(m, r, i, n, k, carry, rest, s);
      }
      DivModUnique(Num(s, r, n), Pow2(k), Num(m[..], r, n), rest);
      CarryFits(rest, k);
    } else {
      DivModUnique(Num(s, r, n), 1, Num(s, r, n), 0);
      DivModUnique(0, BASE, 0, 0);
    }
  }

  lemma CarryFits(rest: nat, k: nat)
    requires rest < Pow2(k) && k < WORD_BITS
    ensures 0 <= rest * Pow2(WORD_BITS - k) < BASE && rest * Pow2(WORD_BITS - k) % BASE == rest * Pow2(WORD_BITS - k)
  {
    hide Pow2;
    WordSplit(k);
    MulMonotone(rest + 1, Pow2(k), Pow2(WORD_BITS - k));
    NatProduct(rest, Pow2(WORD_BITS - k));
    DivModUnique(rest * Pow2(WORD_BITS - k), BASE, 0, rest * Pow2(WORD_BITS - k));
  }

  method ShiftRightWord(m: array<Word>, r: nat, i: nat, n: nat, k: nat, carry0: Word, ghost rest0: nat, ghost s: seq<Word>)
      returns (carry: Word, ghost rest: nat)
    requires i < n && r + n <= m.Length && 0 < k < WORD_BITS
    requires |s| == m.Length && SameWords(m[..], r, s, r, i + 1) && OnlyChanged(s, m[..], r + i + 1, n - i - 1)
    requires rest0 < Pow2(k) && carry0 == rest0 * Pow2(WORD_BITS - k)
    requires Num(s, r + i + 1, n - i - 1) == Num(m[..], r + i + 1, n - i - 1) * Pow2(k) + rest0
    modifies m
    ensures SameWords(m[..], r, s, r, i) && OnlyChanged(s, m[..], r + i, n - i)
    ensures rest < Pow2(k) && carry == rest * Pow2(WORD_BITS - k)
    ensures Num(s, r + i, n - i) == Num(m[..], r + i, n - i) * Pow2(k) + rest
  {
    hide Num, Scale, BitOr, Pow2;
    ghost var t := m[..];
    var u := m[r + i];
    assert u == s[r + i];
    var w;
    w, carry, rest := RightShiftedWord(u, k, carry0, rest0);
    m[r + i] := w;
    NumsKept(t, m[..], r + i, 1);
    FirstWord(s, r + i, n - i);
    FirstWord(m[..], r + i, n - i);
    RightStep(u, w, rest, rest0, Pow2(k), BASE, Num(s, r + i + 1, n - i - 1), Num(m[..], r + i + 1, n - i - 1));
  }

  /** One word with the bits that come in from above; the bits that drop out, left-aligned, are the next carry. */
  method RightShiftedWord(u: Word, k: nat, carry0: Word, ghost rest0: nat) returns (w: Word, carry: Word, ghost rest: nat)
    requires 0 < k < WORD_BITS && rest0 < Pow2(k) && carry0 == rest0 * Pow2(WORD_BITS - k)
    ensures rest < Pow2(k) && carry == rest * Pow2(WORD_BITS - k)
    ensures u + rest0 * BASE == w * Pow2(k) + rest
  {
    hide BitOr, Pow2;
    ghost var p, q := Pow2(k), Pow2(WORD_BITS - k);
    WordSplit(k);
    rest := u % p;
    QuotientSplit(u, p);
    MulComm(p, q);
    QuotientSmall(u, u / p, rest, q, p);
    BitOrComm(u / p, carry0);
    BitOrDisjoint(rest0, u / p, WORD_BITS - k);
    JoinedFits(rest0, u / p, q, p, WORD_BITS - k);
    w := BitOr(u / Pow2(k), carry0);
    ghost var low, high := LeftShiftParts(u, WORD_BITS - k);
    RemainderParts(u, rest, low, high, p, q);
    carry := u * Pow2(WORD_BITS - k) % BASE;
    JoinedWord(u / p, rest0, p, q);
  }

  lemma JoinedWord(high: int, rest0: int, p: int, q: int)
    ensures (high + rest0 * q) * p == high * p + rest0 * (p * q)
  {
    AddMul(high, rest0 * q, p);
    MulAssoc(rest0, q, p);
    MulComm(q, p);
  }

  lemma RemainderParts(u: nat, rest: nat, low: nat, high: nat, p: nat, q: nat)
    requires 0 < p && 0 < q && rest == u % p && high == u / p
    requires u * q == high * (p * q) + low * q
    ensures low == rest
  {
    QuotientSplit(u, p);
    ScaledParts(high, p, rest, q);
    CancelFactor(low, rest, q);
  }

  lemma ScaledParts(high: int, p: int, rest: int, q: int)
    ensures (high * p + rest) * q == high * (p * q) + rest * q
  {
  }

  lemma CancelFactor(x: int, y: int, q: int)
    requires 0 < q && x * q == y * q
    ensures x == y
  {
    if x < y {
      MulMonotone(x + 1, y, q);
      AddMul(x, 1, q);
    } else if y < x {
      MulMonotone(y + 1, x, q);
      AddMul(y, 1, q);
    }
  }

  lemma FirstWord(s: seq<Word>, p: nat, n: nat)
    requires 0 < n && p + n <= |s|
    ensures Num(s, p, n) == s[p] + BASE * Num(s, p + 1, n - 1)
  {
    NumSplit(s, p, 1, n - 1);
    NumShort(s, p);
  }

  lemma RightStep(u: int, w: int, rest: int, rest0: int, p: int, base: int, x: int, y: int)
    requires u + rest0 * base == w * p + rest && x == y * p + rest0
    ensures u + base * x == (w + base * y) * p + rest
  {
    AddMul(w, base * y, p);
    MulAssoc(base, y, p);
    AddMul(y * p, rest0, base);
    MulComm(base, x);
    MulComm(base, y * p);
  }

  // ---- By whole words ----

  /** t is s with the n words at r moved k places up, zeros coming in. */
  ghost predicate MovedUp(s: seq<Word>, t: seq<Word>, r: nat, n: nat, k: nat) {
    |s| == |t| && r + n <= |s| && OnlyChanged(s, t, r, n) &&
    forall i {:trigger t[i]} :: r <= i < r + n ==> t[i] == if i - r < k then 0 else s[i - k]
  }

  /** t is s with the n words at r moved k places down, zeros coming in. */
  ghost predicate MovedDown(s: seq<Word>, t: seq<Word>, r: nat, n: nat, k: nat) {
    |s| == |t| && r + n <= |s| && OnlyChanged(s, t, r, n) &&
    forall i {:trigger t[i]} :: r <= i < r + n ==> t[i] == if i + k < r + n then s[i + k] else 0
  }

  method ShiftWordsLeftByWords(m: array<Word>, r: nat, n: nat, k0: nat)
    requires r + n <= m.Length
    modifies m
    ensures MovedUp(old(m[..]), m[..], r, n, k0)
  {
    var k := if k0 < n then k0 else n;
    ghost var s := m[..];
    if k != 0 {
      var i := n - 1;
      while i >= k
        invariant k - 1 <= i < n
        invariant OnlyChanged(s, m[..], r + i + 1, n - 1 - i)
        invariant forall j {:trigger m[j]} :: r + i < j < r + n ==> m[j] == s[j - k]
      {
        m[r + i] := m[r + i - k];
        i := i - 1;
      }
      SetWords(m, r, 0, k);
    }
    assert MovedUp(s, m[..], r, n, k);
  }

  method ShiftWordsRightByWords(m: array<Word>, r: nat, n: nat, k0: nat)
    requires r + n <= m.Length
    modifies m
    ensures MovedDown(old(m[..]), m[..], r, n, k0)
  {
    var k := if k0 < n then k0 else n;
    ghost var s := m[..];
    if k != 0 {
      var i := 0;
      while i + k < n
        invariant 0 <= i <= n - k
        invariant OnlyChanged(s, m[..], r, i)
        invariant forall j {:trigger m[j]} :: r <= j < r + i ==> m[j] == s[j + k]
      {
        m[r + i] := m[r + i + k];
        i := i + 1;
      }
      SetWords(m, r + n - k, 0, k);
    }
    assert MovedDown(s, m[..], r, n, k);
  }

  // ---- Bit length ----

  /** The position of the highest set bit, by bisection. */
  method BitPrecision(value: Word) returns (h: nat)
    ensures h <= WORD_BITS
    ensures value < Pow2(h)
    ensures h > 0 ==> Pow2(h - 1) <= value
    ensures h == 0 <==> value == 0
  {
    if value == 0 {
      return 0;
    }
    var l := 0;
    h := WORD_BITS;
    while h - l > 1
      invariant 0 <= l < h <= WORD_BITS
      invariant Pow2(l) <= value < Pow2(h)
      decreases h - l
    {
      var t := (l + h) / 2;
      ShiftIsZero(value, Pow2(t));
      if value / Pow2(t) != 0 {
        l := t;
      } else {
        h := t;
      }
    }
  }

  lemma ShiftIsZero(x: nat, p: nat)
    requires 0 < p
    ensures x / p != 0 <==> p <= x
  {
    assert x == x / p * p + x % p;
    if p <= x {
      if x / p <= 0 { MulMonotone(x / p, 0, p); }
    } else {
      DivModUnique(x, p, 0, x);
    }
  }
}
