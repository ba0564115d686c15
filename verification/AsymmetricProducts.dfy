/** Products of operands of different lengths: even and odd blocks interleaved, added once. */
module AsymmetricProducts {
  import opened Integers
  import opened Words
  import opened WordArithmetic
  import opened SmallMultiply
  import opened Karatsuba
  import opened Squaring

  // ---- Blocks of the longer operand ----

  ghost predicate Multiple(i: nat, d: nat)
    requires d > 0
  {
    i == 0 || (i >= d && Multiple(i - d, d))
  }

  lemma {:induction false} MultipleGap(i: nat, j: nat, d: nat)
    requires d > 0 && Multiple(i, d) && Multiple(j, d) && i < j
    ensures i + d <= j && Multiple(i + d, d)
  {
    if i > 0 { MultipleGap(i - d, j - d, d); }
  }

  lemma {:induction false} MultipleOfQuotient(q: nat, d: nat)
    requires d > 0
    ensures 0 <= q * d && Multiple(q * d, d)
  {
    if q > 0 {
      MultipleOfQuotient(q - 1, d);
      assert q * d == (q - 1) * d + d;
    }
  }

  /** Every other k-word block of b, from position `from` to below position i, at its weight. */
  ghost function Blocks(s: seq<Word>, b: nat, k: nat, from: nat, i: nat): (r: nat)
    requires k > 0 && b + i <= |s| + k
    decreases i
  {
    if i < from + 2 * k then 0
    else
      NatProduct(Num(s, b + i - 2 * k, k), Scale(i - 2 * k));
      Blocks(s, b, k, from, i - 2 * k) + Num(s, b + i - 2 * k, k) * Scale(i - 2 * k)
  }

  /** Even and odd blocks together are the whole number. */
  lemma {:induction false} BlocksAreNumber(s: seq<Word>, b: nat, k: nat, i: nat)
    requires k > 0 && b + i <= |s| && Multiple(i, 2 * k)
    ensures Blocks(s, b, k, 0, i) + Blocks(s, b, k, k, i + k) == Num(s, b, i)
  {
    if i > 0 {
      var j := i - 2 * k;
      BlocksAreNumber(s, b, k, j);
      NumSplit(s, b, j, 2 * k);
      NumSplit(s, b + j, k, k);
      ScaleAdd(j, k);
      PairOfBlocks(Num(s, b, j), Num(s, b + j, k), Num(s, b + j + k, k), Scale(j), Scale(k));
    }
  }

  lemma PairOfBlocks(x: int, y: int, z: int, sj: int, sk: int)
    ensures x + y * sj + z * (sj * sk) == x + sj * (y + sk * z)
  {
  }

  lemma {:induction false} BlocksKept(s: seq<Word>, t: seq<Word>, b: nat, k: nat, from: nat, i: nat)
    requires k > 0 && |s| == |t| && b + i <= |s| + k
    requires forall j {:trigger t[j]} :: b <= j < b + i && j < |s| ==> t[j] == s[j]
    ensures Blocks(t, b, k, from, i) == Blocks(s, b, k, from, i)
  {
    if i >= from + 2 * k {
      BlocksKept(s, t, b, k, from, i - 2 * k);
      NumSame(t, b + i - 2 * k, s, b + i - 2 * k, k);
    }
  }

  // ---- The algorithm ----

  ghost predicate AsymmetricOperands(size: nat, r: nat, t: nat, a: nat, na: nat, b: nat, nb: nat) {
    r + na + nb <= size && t + na + nb <= size && a + na <= size && b + nb <= size &&
    Disjoint(r, na + nb, t, na + nb) && Disjoint(r, na + nb, a, na) && Disjoint(r, na + nb, b, nb) &&
    Disjoint(t, na + nb, a, na) && Disjoint(t, na + nb, b, nb)
  }

  method AsymmetricMultiply(m: array<Word>, r: nat, t: nat, a: nat, na: nat, b: nat, nb: nat)
    requires AsymmetricOperands(m.Length, r, t, a, na, b, nb)
    requires na >= 2 && PowerOfTwo(na) && nb >= 2 && PowerOfTwo(nb)
    requires na < nb ==> nb % (2 * na) == 0
    requires nb < na ==> na % (2 * nb) == 0
    modifies m
    ensures Num(m[..], r, na + nb) == old(Num(m[..], a, na)) * old(Num(m[..], b, nb))
    ensures OnlyChanged2(old(m[..]), m[..], r, na + nb, t, na + nb)
  {
    hide Num, Scale, PowerOfTwo;
    if na == nb {
      if a == b {
        RecursiveSquare(m, r, t, a, na);
      } else {
        RecursiveMultiply(m, r, t, a, b, na);
      }
    } else if na > nb {
      ShortTimesLong(m, r, t, b, nb, a, na);
      MulComm(old(Num(m[..], a, na)), old(Num(m[..], b, nb)));
    } else {
      ShortTimesLong(m, r, t, a, na, b, nb);
    }
  }

  method ShortTimesLong(m: array<Word>, r: nat, t: nat, a: nat, na: nat, b: nat, nb: nat)
    requires AsymmetricOperands(m.Length, r, t, a, na, b, nb)
    requires 2 <= na < nb && PowerOfTwo(na) && nb % (2 * na) == 0
    modifies m
    ensures Num(m[..], r, na + nb) == old(Num(m[..], a, na)) * old(Num(m[..], b, nb))
    ensures OnlyChanged2(old(m[..]), m[..], r, na + nb, t, na + nb)
  {
    hide Num, Scale, PowerOfTwo;
    if na == 2 && m[a + 1] == 0 {
      TimesOneWord(m, r, a, b, nb);
    } else {
      TimesBlocks(m, r, t, a, na, b, nb);
    }
  }

  method TimesOneWord(m: array<Word>, r: nat, a: nat, b: nat, nb: nat)
    requires r + 2 + nb <= m.Length && a + 2 <= m.Length && b + nb <= m.Length
    requires Disjoint(r, 2 + nb, a, 2) && Disjoint(r, 2 + nb, b, nb) && m[a + 1] == 0
    modifies m
    ensures Num(m[..], r, 2 + nb) == old(Num(m[..], a, 2)) * old(Num(m[..], b, nb))
    ensures OnlyChanged(old(m[..]), m[..], r, 2 + nb)
  {
    hide Num, Scale;
    ghost var s := m[..];
    var x := m[a];
    NumTwo(s, a);
    if x == 0 {
      SetWords(m, r, 0, nb + 2);
      NumZero(m[..], r, nb + 2);
      MulEqual(Num(s, a, 2), Num(s, b, nb), 0, Num(s, b, nb));
    } else {
      var top;
      if x == 1 {
        CopyWords(m, r, b, nb);
        top := 0;
      } else {
        top := LinearMultiply(m, r, b, x, nb);
      }
      ghost var s1 := m[..];
      m[r + nb], m[r + nb + 1] := top, 0;
      NumSame(m[..], r, s1, r, nb);
      NumNext(m[..], r, nb);
      NumNext(m[..], r, nb + 1);
      MulEqual(Num(s, a, 2), Num(s, b, nb), x, Num(s, b, nb));
      MulComm(x, Num(s, b, nb));
    }
  }

  method TimesBlocks(m: array<Word>, r: nat, t: nat, a: nat, na: nat, b: nat, nb: nat)
    requires AsymmetricOperands(m.Length, r, t, a, na, b, nb)
    requires 2 <= na < nb && PowerOfTwo(na) && nb % (2 * na) == 0
    modifies m
    ensures Num(m[..], r, na + nb) == old(Num(m[..], a, na)) * old(Num(m[..], b, nb))
    ensures OnlyChanged2(old(m[..]), m[..], r, na + nb, t, na + nb)
  {
    hide Num, Scale, PowerOfTwo, Product, Blocks;
    ghost var s0 := m[..];
    BlockLength(na, nb);
    EvenBlocks(m, r, t, a, na, b, nb);
    ghost var s1 := m[..];
    OddBlocks(m, r, t, a, na, b, nb, s0);
    ghost var s2 := m[..];
    NumsKept2(s1, s2, r + na, nb, t, 2 * na);
    ghost var carry, overflow := AddBlocks(m, r, t, na, nb);
    JoinBlocks(s0, s1, s2, m[..], r, t, a, na, b, nb, carry, overflow);
  }

  /** The even products, past their lowest block, added to the odd ones. */
  method AddBlocks(m: array<Word>, r: nat, t: nat, na: nat, nb: nat) returns (ghost carry: nat, ghost overflow: nat)
    requires 2 <= na < nb && na % 2 == 0 && nb % 2 == 0
    requires r + na + nb <= m.Length && t + na + nb <= m.Length && Disjoint(r, na + nb, t, na + nb)
    modifies m
    ensures carry <= 1 && OnlyChanged(old(m[..]), m[..], r + na, nb)
    ensures Num(m[..], r + na, nb - na) + carry * Scale(nb - na)
         == old(Num(m[..], r + na, nb - na)) + old(Num(m[..], t + 2 * na, nb - na))
    ensures Num(m[..], r + nb, na) + overflow * Scale(na) == old(Num(m[..], r + nb, na)) + carry
  {
    hide Num, Scale;
    ghost var s2 := m[..];
    var c := Add(m, r + na, r + na, t + 2 * na, nb - na);
    carry, overflow := c, 0;
    ghost var s3 := m[..];
    NumsKept(s2, s3, r + na, nb - na);
    if c != 0 {
      BaseAtLeast256();
      var c' := Increment(m, r + nb, na, 1);
      overflow := c';
      NumsKept(s3, m[..], r + nb, na);
    }
  }

  lemma BlockLength(na: nat, nb: nat)
    requires 2 <= na < nb && PowerOfTwo(na) && nb % (2 * na) == 0
    ensures na % 2 == 0 && nb % 2 == 0 && Multiple(nb, 2 * na) && 2 * na <= nb
  {
    hide *;
    PowerIsEven(na);
    var q := nb / (2 * na);
    DivideExactly(nb, 2 * na);
    MultipleOfQuotient(q, 2 * na);
    EvenMultiple(q, na, nb);
    AtLeastOnce(q, 2 * na, nb);
  }

  lemma DivideExactly(n: nat, d: nat)
    requires 0 < d && n % d == 0
    ensures n == (n / d) * d && 0 <= n / d
  {
  }

  lemma EvenMultiple(q: int, na: int, nb: int)
    requires nb == q * (2 * na)
    ensures nb % 2 == 0
  {
    assert nb == 2 * (q * na);
  }

  lemma AtLeastOnce(q: nat, d: nat, n: nat)
    requires n == q * d && 0 < n
    ensures d <= n
  {
    if q == 0 { MulEqual(q, d, 0, d); } else { MulMonotone(1, q, d); }
  }

  /** The products with even blocks: the first one's low words go to R, everything above to T + 2 * na. */
  method EvenBlocks(m: array<Word>, r: nat, t: nat, a: nat, na: nat, b: nat, nb: nat)
    requires AsymmetricOperands(m.Length, r, t, a, na, b, nb)
    requires 2 <= na < nb && PowerOfTwo(na) && Multiple(nb, 2 * na) && 2 * na <= nb
    modifies m
    ensures Num(m[..], r, na) + Scale(na) * Num(m[..], t + 2 * na, nb - na)
         == old(Num(m[..], a, na)) * Blocks(old(m[..]), b, na, 0, nb)
    ensures OnlyChanged2(old(m[..]), m[..], r, 2 * na, t, na + nb)
  {
    hide Num, Scale, PowerOfTwo, Product, Blocks, EvenDone;
    ghost var s0 := m[..];
    RecursiveMultiply(m, r, t, a, b, na);
    ghost var s1 := m[..];
    CopyWords(m, t + 2 * na, r + na, na);
    FirstBlock(s0, s1, m[..], r, t, a, na, b);
    MultipleTwice(na);
    EvenStarts(s0, m[..], r, t, a, na, b, nb);
    var i := 2 * na;
    while i < nb
      invariant 2 * na <= i <= nb && Multiple(i, 2 * na)
      invariant EvenDone(s0, m[..], r, t, a, na, b, nb, i)
    {
      MultipleGap(i, nb, 2 * na);
      NextEvenBlock(m, r, t, a, na, b, nb, i, s0);
      i := i + 2 * na;
    }
    EvenFinished(s0, m[..], r, t, a, na, b, nb);
  }

  /** The even blocks below word i have been multiplied. */
  ghost predicate EvenDone(s0: seq<Word>, s: seq<Word>, r: nat, t: nat, a: nat, na: nat, b: nat, nb: nat, i: nat) {
    2 <= na && 2 * na <= i <= nb && |s| == |s0| && AsymmetricOperands(|s|, r, t, a, na, b, nb) &&
    OnlyChanged2(s0, s, r, 2 * na, t, na + i) &&
    Num(s, r, na) + Scale(na) * Num(s, t + 2 * na, i - na) == Num(s0, a, na) * Blocks(s0, b, na, 0, i)
  }

  lemma EvenStarts(s0: seq<Word>, s: seq<Word>, r: nat, t: nat, a: nat, na: nat, b: nat, nb: nat)
    requires 2 <= na && 2 * na <= nb && |s| == |s0| && AsymmetricOperands(|s|, r, t, a, na, b, nb)
    requires OnlyChanged2(s0, s, r, 2 * na, t, 3 * na)
    requires Num(s, r, na) + Scale(na) * Num(s, t + 2 * na, na) == Num(s0, a, na) * Blocks(s0, b, na, 0, 2 * na)
    ensures EvenDone(s0, s, r, t, a, na, b, nb, 2 * na)
  {
    hide Num, Scale, Blocks;
  }

  method NextEvenBlock(m: array<Word>, r: nat, t: nat, a: nat, na: nat, b: nat, nb: nat, i: nat, ghost s0: seq<Word>)
    requires PowerOfTwo(na) && i + 2 * na <= nb && EvenDone(s0, m[..], r, t, a, na, b, nb, i)
    modifies m
    ensures EvenDone(s0, m[..], r, t, a, na, b, nb, i + 2 * na)
  {
    hide Num, Scale, PowerOfTwo, Product, Blocks;
    ghost var s := m[..];
    RecursiveMultiply(m, t + na + i, t, a, b + i, na);
    EvenBlock(s0, s, m[..], r, t, a, na, b, i);
  }

  lemma EvenFinished(s0: seq<Word>, s: seq<Word>, r: nat, t: nat, a: nat, na: nat, b: nat, nb: nat)
    requires EvenDone(s0, s, r, t, a, na, b, nb, nb)
    ensures |s| == |s0| && AsymmetricOperands(|s|, r, t, a, na, b, nb) && na <= nb
    ensures Num(s, r, na) + Scale(na) * Num(s, t + 2 * na, nb - na) == Num(s0, a, na) * Blocks(s0, b, na, 0, nb)
    ensures OnlyChanged2(s0, s, r, 2 * na, t, na + nb)
  {
    hide Num, Scale, Blocks;
  }

  lemma MultipleTwice(na: nat)
    requires na > 0
    ensures Multiple(2 * na, 2 * na)
  {
    assert Multiple(0, 2 * na);
  }

  lemma FirstBlock(s0: seq<Word>, s1: seq<Word>, s2: seq<Word>, r: nat, t: nat, a: nat, na: nat, b: nat)
    requires na >= 2 && |s0| == |s1| == |s2| && r + 2 * na <= |s0| && t + 3 * na <= |s0| && a + na <= |s0| && b + 2 * na <= |s0|
    requires Disjoint(r, 2 * na, t, 3 * na)
    requires Num(s1, r, 2 * na) == Product(s0, a, b, na)
    requires OnlyChanged(s1, s2, t + 2 * na, na) && Num(s2, t + 2 * na, na) == Num(s1, r + na, na)
    ensures Num(s2, r, na) + Scale(na) * Num(s2, t + 2 * na, na) == Num(s0, a, na) * Blocks(s0, b, na, 0, 2 * na)
  {
    hide Num, Scale;
    NumSplit(s1, r, na, na);
    NumsKept(s1, s2, t + 2 * na, na);
    NumShort(s0, b);
    assert Blocks(s0, b, na, 0, 0) == 0;
    MulEqual(Num(s0, a, na), Blocks(s0, b, na, 0, 2 * na), Num(s0, a, na), Num(s0, b, na));
  }

  lemma EvenBlock(s0: seq<Word>, s: seq<Word>, s': seq<Word>, r: nat, t: nat, a: nat, na: nat, b: nat, i: nat)
    requires na >= 2 && 2 * na <= i && |s0| == |s| == |s'| && r + 2 * na <= |s0| && t + 3 * na + i <= |s0| && a + na <= |s0| && b + i + na <= |s0|
    requires Disjoint(r, 2 * na, t, 3 * na + i) && Disjoint(t, na + i, a, na) && Disjoint(r, 2 * na, a, na)
    requires Disjoint(t, na + i, b, i + na) && Disjoint(r, 2 * na, b, i + na)
    requires OnlyChanged2(s0, s, r, 2 * na, t, na + i) && OnlyChanged2(s, s', t + na + i, 2 * na, t, 2 * na)
    requires Num(s', t + na + i, 2 * na) == Product(s, a, b + i, na)
    requires Num(s, r, na) + Scale(na) * Num(s, t + 2 * na, i - na) == Num(s0, a, na) * Blocks(s0, b, na, 0, i)
    ensures Num(s', r, na) + Scale(na) * Num(s', t + 2 * na, i + na) == Num(s0, a, na) * Blocks(s0, b, na, 0, i + 2 * na)
  {
    hide Num, Scale;
    NumsKept2(s0, s, r, 2 * na, t, na + i);
    NumsKept2(s, s', t + na + i, 2 * na, t, 2 * na);
    NumSplit(s', t + 2 * na, i - na, 2 * na);
    ScaleAdd(na, i - na);
    MulEqual(Num(s, a, na), Num(s, b + i, na), Num(s0, a, na), Num(s0, b + i, na));
    BlockAdded(Num(s0, a, na), Blocks(s0, b, na, 0, i), Num(s0, b + i, na), Blocks(s0, b, na, 0, i + 2 * na),
               Num(s, r, na), Num(s, t + 2 * na, i - na), Num(s', t + na + i, 2 * na), Num(s', t + 2 * na, i + na),
               Scale(na), Scale(i - na), Scale(i));
  }

  lemma BlockAdded(a: int, e: int, b: int, e': int, low: int, x: int, y: int, x': int, sn: int, sx: int, si: int)
    requires low + sn * x == a * e && y == a * b && x' == x + sx * y && si == sn * sx && e' == e + b * si
    ensures low + sn * x' == a * e'
  {
    assert sn * (x + sx * y) == sn * x + y * (sn * sx);
    assert a * (e + b * si) == a * e + a * b * si;
  }

  /** The products with odd blocks, one after the other from R + na upwards. */
  method OddBlocks(m: array<Word>, r: nat, t: nat, a: nat, na: nat, b: nat, nb: nat, ghost s0: seq<Word>)
    requires AsymmetricOperands(m.Length, r, t, a, na, b, nb)
    requires 2 <= na < nb && PowerOfTwo(na) && Multiple(nb, 2 * na) && 2 * na <= nb
    requires OnlyChanged2(s0, m[..], r, 2 * na, t, na + nb)
    modifies m
    ensures Scale(na) * Num(m[..], r + na, nb) == Num(s0, a, na) * Blocks(s0, b, na, na, nb + na)
    ensures OnlyChanged2(old(m[..]), m[..], r + na, nb, t, 2 * na)
  {
    hide Num, Scale, PowerOfTwo, Product, Blocks;
    ghost var s1 := m[..];
    NoOddBlocks(m[..], s0, r, a, na, b);
    var i := na;
    while i < nb
      invariant na <= i <= nb + na && Multiple(i - na, 2 * na)
      invariant OnlyChanged2(s1, m[..], r + na, i - na, t, 2 * na)
      invariant Scale(na) * Num(m[..], r + na, i - na) == Num(s0, a, na) * Blocks(s0, b, na, na, i)
    {
      ghost var s := m[..];
      MultipleGap(i - na, nb, 2 * na);
      RecursiveMultiply(m, r + i, t, a, b + i, na);
      OddBlock(s0, s1, s, m[..], r, t, a, na, b, nb, i);
      i := i + 2 * na;
    }
    OddDone(i, na, nb);
  }

  lemma OddDone(i: nat, na: nat, nb: nat)
    requires na > 0 && nb <= i && na <= i <= nb + na && Multiple(i - na, 2 * na) && Multiple(nb, 2 * na)
    ensures i == nb + na
  {
    if i - na < nb { MultipleGap(i - na, nb, 2 * na); }
  }

  lemma NoOddBlocks(s: seq<Word>, s0: seq<Word>, r: nat, a: nat, na: nat, b: nat)
    requires na > 0 && r + na <= |s| && a + na <= |s0| && b <= |s0|
    ensures Multiple(0, 2 * na)
    ensures Scale(na) * Num(s, r + na, 0) == Num(s0, a, na) * Blocks(s0, b, na, na, na)
  {
    MulEqual(Scale(na), Num(s, r + na, 0), Scale(na), 0);
    MulEqual(Num(s0, a, na), Blocks(s0, b, na, na, na), Num(s0, a, na), 0);
  }

  lemma OddBlock(s0: seq<Word>, s1: seq<Word>, s: seq<Word>, s': seq<Word>, r: nat, t: nat, a: nat, na: nat, b: nat, nb: nat, i: nat)
    requires na >= 2 && na <= i && i + na <= nb && |s0| == |s1| == |s| == |s'| && AsymmetricOperands(|s0|, r, t, a, na, b, nb)
    requires OnlyChanged2(s0, s1, r, 2 * na, t, na + nb) && OnlyChanged2(s1, s, r + na, i - na, t, 2 * na)
    requires OnlyChanged2(s, s', r + i, 2 * na, t, 2 * na)
    requires Num(s', r + i, 2 * na) == Product(s, a, b + i, na)
    requires Scale(na) * Num(s, r + na, i - na) == Num(s0, a, na) * Blocks(s0, b, na, na, i)
    ensures OnlyChanged2(s1, s', r + na, i + na, t, 2 * na)
    ensures Scale(na) * Num(s', r + na, i + na) == Num(s0, a, na) * Blocks(s0, b, na, na, i + 2 * na)
  {
    hide Num, Scale;
    NumsKept2(s0, s1, r, 2 * na, t, na + nb);
    NumsKept2(s1, s, r + na, i - na, t, 2 * na);
    NumsKept2(s, s', r + i, 2 * na, t, 2 * na);
    NumSplit(s', r + na, i - na, 2 * na);
    ScaleAdd(na, i - na);
    MulEqual(Num(s, a, na), Num(s, b + i, na), Num(s0, a, na), Num(s0, b + i, na));
    BlockAdded(Num(s0, a, na), Blocks(s0, b, na, na, i), Num(s0, b + i, na), Blocks(s0, b, na, na, i + 2 * na),
               0, Num(s, r + na, i - na), Num(s', r + i, 2 * na), Num(s', r + na, i + na),
               Scale(na), Scale(i - na), Scale(i));
  }

  lemma JoinBlocks(s0: seq<Word>, s1: seq<Word>, s2: seq<Word>, s4: seq<Word>,
                   r: nat, t: nat, a: nat, na: nat, b: nat, nb: nat, carry: nat, overflow: nat)
    requires 2 <= na < nb && Multiple(nb, 2 * na) && |s0| == |s1| == |s2| == |s4| && AsymmetricOperands(|s0|, r, t, a, na, b, nb)
    requires Num(s1, r, na) + Scale(na) * Num(s1, t + 2 * na, nb - na) == Num(s0, a, na) * Blocks(s0, b, na, 0, nb)
    requires Scale(na) * Num(s2, r + na, nb) == Num(s0, a, na) * Blocks(s0, b, na, na, nb + na)
    requires Num(s2, r, na) == Num(s1, r, na) && Num(s2, t + 2 * na, nb - na) == Num(s1, t + 2 * na, nb - na)
    requires carry <= 1 && OnlyChanged(s2, s4, r + na, nb)
    requires Num(s4, r + na, nb - na) + carry * Scale(nb - na) == Num(s2, r + na, nb - na) + Num(s2, t + 2 * na, nb - na)
    requires Num(s4, r + nb, na) + overflow * Scale(na) == Num(s2, r + nb, na) + carry
    ensures Num(s4, r, na + nb) == Num(s0, a, na) * Num(s0, b, nb)
  {
    hide Num, Scale, Blocks;
    NumsKept(s2, s4, r + na, nb);
    BlocksAreNumber(s0, b, na, nb);
    NumSplit(s2, r + na, nb - na, na);
    NumSplit(s4, r + na, nb - na, na);
    NumSplit(s4, r, na, nb);
    ScaleAdd(nb - na, na);
    ScaleAdd(na, nb);
    NumBound(s0, a, na);
    NumBound(s0, b, nb);
    ProductBelow(Num(s0, a, na), Num(s0, b, nb), Scale(na), Scale(nb));
    BlocksSummed(Num(s2, r + na, nb), Num(s2, r + na, nb - na), Num(s2, r + nb, na), Num(s2, t + 2 * na, nb - na),
                 Num(s4, r + na, nb), Num(s4, r + na, nb - na), Num(s4, r + nb, na), carry, overflow, Scale(na), Scale(nb - na), Scale(nb));
    BlocksJoined(Num(s0, a, na), Blocks(s0, b, na, 0, nb), Blocks(s0, b, na, na, nb + na), Num(s0, b, nb),
                 Num(s1, r, na), Num(s1, t + 2 * na, nb - na), Num(s2, r + na, nb), Num(s4, r + na, nb), overflow,
                 Scale(na), Scale(nb), Num(s4, r, na + nb));
  }

  lemma BlocksSummed(odd: int, odd0: int, odd1: int, even: int, sum: int, sum0: int, sum1: int,
                     carry: int, overflow: int, sn: int, sm: int, sb: int)
    requires odd == odd0 + sm * odd1 && sum == sum0 + sm * sum1 && sb == sm * sn
    requires sum0 + carry * sm == odd0 + even && sum1 + overflow * sn == odd1 + carry
    ensures sum + overflow * sb == odd + even
  {
    assert sm * (sum1 + overflow * sn) == sm * sum1 + overflow * (sm * sn);
    assert sm * (odd1 + carry) == sm * odd1 + carry * sm;
  }

  lemma BlocksJoined(a: nat, e: nat, o: nat, b: nat, low: nat, even: nat, odd: nat, sum: nat,
                     overflow: nat, sn: nat, sb: nat, total: nat)
    requires low + sn * even == a * e && sn * odd == a * o && b == e + o
    requires sum + overflow * sb == odd + even
    requires total == low + sn * sum && a * b < sn * sb
    ensures total == a * b
  {
    AddedProducts(a, e, o, b, low, even, odd, sn);
    ScaledSum(sum, overflow, sb, sn, odd + even);
    NatProduct(sn, sum);
    if overflow >= 1 { MulMonotone(1, overflow, sn * sb); }
  }

  lemma AddedProducts(a: int, e: int, o: int, b: int, low: int, even: int, odd: int, sn: int)
    requires low + sn * even == a * e && sn * odd == a * o && b == e + o
    ensures low + sn * (odd + even) == a * b
  {
    assert sn * (odd + even) == sn * odd + sn * even;
    assert a * (e + o) == a * e + a * o;
  }

  lemma ScaledSum(sum: int, overflow: int, sb: int, sn: int, x: int)
    requires sum + overflow * sb == x
    ensures sn * sum + overflow * (sn * sb) == sn * x
  {
    assert sn * (sum + overflow * sb) == sn * sum + overflow * (sn * sb);
  }
}
