/** Machine words, the flat memory they live in, and the number a run of words denotes.

    A `word *` of the program is an offset into one memory `m: array<Word>`, so that
    overlap between operands is a statement about offsets. Contracts speak about a
    snapshot `m[..]` of that memory: `Num(s, p, n)` is the number whose `n` words,
    least significant first, start at offset `p`. */
module Words {
  import opened Integers


  // 16, 32 or 64 in the supported builds; nothing below depends on which.
  type WordWidth = w: nat | 8 <= w witness 32
  const WORD_BITS: WordWidth

  const BASE: nat := Pow2(WORD_BITS)

  type Word = w: nat | w < BASE

  /** BASE to the power n: the weight of word n. */
  ghost function Scale(n: nat): (r: nat)
    ensures r > 0
  {
    if n == 0 then 1 else MulPositive(BASE, Scale(n - 1)); BASE * Scale(n - 1)
  }

  ghost function Num(s: seq<Word>, p: nat, n: nat): (r: nat)
    requires p + n <= |s|
  {
    if n == 0 then 0 else Num(s, p, n - 1) + s[p + n - 1] * Scale(n - 1)
  }

  /** The product of two n-word numbers. */
  ghost function Product(s: seq<Word>, a: nat, b: nat, n: nat): (r: nat)
    requires a + n <= |s| && b + n <= |s|
  {
    NatProduct(Num(s, a, n), Num(s, b, n));
    Num(s, a, n) * Num(s, b, n)
  }

  ghost predicate Disjoint(p: nat, n: nat, q: nat, k: nat) {
    p + n <= q || q + k <= p
  }

  /** Snapshot t differs from s at most inside [lo, lo + n). */
  ghost predicate OnlyChanged(s: seq<Word>, t: seq<Word>, lo: nat, n: nat) {
    |s| == |t| && forall i {:trigger t[i]} :: 0 <= i < |s| && !(lo <= i < lo + n) ==> t[i] == s[i]
  }

  /** As OnlyChanged, for two regions. */
  ghost predicate OnlyChanged2(s: seq<Word>, t: seq<Word>, p: nat, n: nat, q: nat, k: nat) {
    |s| == |t| && forall i {:trigger t[i]} :: 0 <= i < |s| && !(p <= i < p + n) && !(q <= i < q + k) ==> t[i] == s[i]
  }

  ghost predicate OnlyChanged3(s: seq<Word>, t: seq<Word>, p: nat, n: nat, q: nat, k: nat, r: nat, l: nat) {
    |s| == |t| && forall i {:trigger t[i]} :: 0 <= i < |s| && !(p <= i < p + n) && !(q <= i < q + k) && !(r <= i < r + l) ==> t[i] == s[i]
  }

  ghost predicate SameWords(s: seq<Word>, p: nat, t: seq<Word>, q: nat, n: nat)
    requires p + n <= |s| && q + n <= |t|
  {
    forall i {:trigger s[i]} :: p <= i < p + n ==> s[i] == t[i - p + q]
  }

  // ---- Powers ----

  lemma BaseAtLeast256()
    ensures BASE >= 256
    ensures BASE % 2 == 0
  {
    Pow2Monotone(8, WORD_BITS);
    assert Pow2(8) == 256;
  }

  lemma {:induction false} ScaleAdd(i: nat, j: nat)
    ensures Scale(i + j) == Scale(i) * Scale(j)
  {
    if i != 0 {
      ScaleAdd(i - 1, j);
      MulAssoc(BASE, Scale(i - 1), Scale(j));
    }
  }

  lemma {:induction false} ScaleMonotone(i: nat, j: nat)
    requires i <= j
    ensures Scale(i) <= Scale(j)
  {
    if i < j {
      ScaleMonotone(i, j - 1);
      BaseAtLeast256();
      MulMonotone(1, BASE, Scale(j - 1));
    }
  }

  lemma {:induction false} ScaleIsPow2(n: nat)
    ensures Scale(n) == Pow2(n * WORD_BITS)
  {
    if n != 0 {
      ScaleIsPow2(n - 1);
      assert n * WORD_BITS == WORD_BITS + (n - 1) * WORD_BITS;
      Pow2Add(WORD_BITS, (n - 1) * WORD_BITS);
    }
  }

  // ---- Integer facts the solver needs to be told ----

  lemma PositiveFactor(x: nat, p: nat, scale: nat)
    requires x < p * scale
    ensures 0 < p
  {
  }

  lemma TopWordBound(x: int, w: int, scale: int, base: int)
    requires x < scale && w < base && 0 < scale
    ensures x + w * scale < base * scale
  {
    MulMonotone(w + 1, base, scale);
  }

  lemma SplitStep(x: int, y: int, w: int, a: int, b: int)
    ensures x + a * y + w * (a * b) == x + a * (y + w * b)
  {
  }

  // ---- Numbers ----

  lemma {:induction false} NumBound(s: seq<Word>, p: nat, n: nat)
    requires p + n <= |s|
    ensures Num(s, p, n) < Scale(n)
  {
    if n != 0 {
      NumBound(s, p, n - 1);
      TopWordBound(Num(s, p, n - 1), s[p + n - 1], Scale(n - 1), BASE);
    }
  }

  /** One more word, and the shortest numbers: what loops over words need of Num and Scale. */
  lemma NumNext(s: seq<Word>, p: nat, n: nat)
    requires p + n < |s|
    ensures Num(s, p, n + 1) == Num(s, p, n) + s[p + n] * Scale(n)
    ensures Scale(n + 1) == BASE * Scale(n)
  {
  }

  lemma NumShort(s: seq<Word>, p: nat)
    requires p <= |s|
    ensures Num(s, p, 0) == 0 && Scale(0) == 1 && Scale(1) == BASE
    ensures p < |s| ==> Num(s, p, 1) == s[p]
  {
  }

  lemma ScaleTwo()
    ensures Scale(2) == BASE * BASE
  {
    assert Scale(0) == 1;
    assert Scale(1) == BASE * Scale(0);
  }

  lemma {:induction false} NumSplit(s: seq<Word>, p: nat, n: nat, k: nat)
    requires p + n + k <= |s|
    ensures Num(s, p, n + k) == Num(s, p, n) + Scale(n) * Num(s, p + n, k)
  {
    if k != 0 {
      NumSplit(s, p, n, k - 1);
      ScaleAdd(n, k - 1);
      SplitStep(Num(s, p, n), Num(s, p + n, k - 1), s[p + n + k - 1], Scale(n), Scale(k - 1));
    }
  }

  lemma {:induction false} NumSame(s: seq<Word>, p: nat, t: seq<Word>, q: nat, n: nat)
    requires p + n <= |s| && q + n <= |t|
    requires SameWords(s, p, t, q, n)
    ensures Num(s, p, n) == Num(t, q, n)
  {
    if n != 0 {
      NumSame(s, p, t, q, n - 1);
    }
  }

  /** A run of words outside the changed region keeps its number. */
  lemma NumsKept(s: seq<Word>, t: seq<Word>, lo: nat, n: nat)
    requires OnlyChanged(s, t, lo, n)
    ensures forall p: nat, k: nat {:trigger Num(t, p, k)} ::
              p + k <= |s| && Disjoint(p, k, lo, n) ==> Num(t, p, k) == Num(s, p, k)
  {
    forall p: nat, k: nat | p + k <= |s| && Disjoint(p, k, lo, n)
      ensures Num(t, p, k) == Num(s, p, k)
    {
      NumSame(t, p, s, p, k);
    }
  }

  lemma NumsKept2(s: seq<Word>, t: seq<Word>, lo: nat, n: nat, lo': nat, n': nat)
    requires OnlyChanged2(s, t, lo, n, lo', n')
    ensures forall p: nat, k: nat {:trigger Num(t, p, k)} ::
              p + k <= |s| && Disjoint(p, k, lo, n) && Disjoint(p, k, lo', n') ==> Num(t, p, k) == Num(s, p, k)
  {
    forall p: nat, k: nat | p + k <= |s| && Disjoint(p, k, lo, n) && Disjoint(p, k, lo', n')
      ensures Num(t, p, k) == Num(s, p, k)
    {
      NumSame(t, p, s, p, k);
    }
  }

  lemma NumsKept3(s: seq<Word>, t: seq<Word>, lo: nat, n: nat, lo': nat, n': nat, lo'': nat, n'': nat)
    requires OnlyChanged3(s, t, lo, n, lo', n', lo'', n'')
    ensures forall p: nat, k: nat {:trigger Num(t, p, k)} ::
              p + k <= |s| && Disjoint(p, k, lo, n) && Disjoint(p, k, lo', n') && Disjoint(p, k, lo'', n'') ==> Num(t, p, k) == Num(s, p, k)
  {
    forall p: nat, k: nat | p + k <= |s| && Disjoint(p, k, lo, n) && Disjoint(p, k, lo', n') && Disjoint(p, k, lo'', n'')
      ensures Num(t, p, k) == Num(s, p, k)
    {
      NumSame(t, p, s, p, k);
    }
  }

  lemma {:induction false} NumZero(s: seq<Word>, p: nat, n: nat)
    requires p + n <= |s|
    ensures Num(s, p, n) == 0 <==> forall i :: p <= i < p + n ==> s[i] == 0
  {
    if n != 0 {
      NumZero(s, p, n - 1);
      if s[p + n - 1] != 0 {
        MulMonotone(1, s[p + n - 1], Scale(n - 1));
      }
    }
  }

  lemma {:induction false} OneNumber(s: seq<Word>, p: nat, n: nat)
    requires 0 < n && p + n <= |s| && s[p] == 1 && forall i :: p + 1 <= i < p + n ==> s[i] == 0
    ensures Num(s, p, n) == 1
  {
    if n > 1 { OneNumber(s, p, n - 1); }
  }

  /** A number determines its words. */
  lemma {:induction false} NumInjective(s: seq<Word>, p: nat, t: seq<Word>, q: nat, n: nat)
    requires p + n <= |s| && q + n <= |t|
    requires Num(s, p, n) == Num(t, q, n)
    ensures SameWords(s, p, t, q, n)
  {
    if n != 0 {
      NumBound(s, p, n - 1);
      NumBound(t, q, n - 1);
      DivModUnique(Num(s, p, n), Scale(n - 1), s[p + n - 1], Num(s, p, n - 1));
      DivModUnique(Num(t, q, n), Scale(n - 1), t[q + n - 1], Num(t, q, n - 1));
      NumInjective(s, p, t, q, n - 1);
    }
  }
}
