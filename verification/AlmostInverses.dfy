/** Kaliski's almost-inverse on word arrays, and the modular inverse built on it. */
module AlmostInverses {
  import opened Integers
  import opened Words
  import opened WordArithmetic
  import opened Shifts
  import opened Modular

  // ---- The numbers behind the loop ----

  ghost function Sgn(s: nat): int {
    if s % 2 == 0 then 1 else -1
  }

  /** What every iteration keeps about b, c, f, g: for input a and odd modulus p, after k halvings and s swaps.
      The multipliers x, y show that a common divisor of f and g divides a; the second clause does so for p. */
  ghost predicate Kept(b: nat, c: nat, f: nat, g: nat, p: nat, a: nat, k: nat, s: nat, x: nat, y: nat) {
    forall key {:trigger Unlock(key)} :: Unlock(key) ==>
      0 < p && g % 2 == 1 &&
      b * g + c * f == p &&
      x * f + y * g == a &&
      Congruent(b * a, Sgn(s) * (f * Pow2(k)), p) &&
      Congruent(c * a, -(Sgn(s) * (g * Pow2(k))), p)
  }

  /** Kept is a black box to the solver except where a lemma about its arithmetic asserts Unlock(Key). Hiding it
      instead would not reach the checks that the contracts below are well formed, which its products overwhelm. */
  datatype Key = Key

  ghost predicate Unlock(key: Key) {
    true
  }

  lemma StartKept(a: nat, p: nat)
    requires p % 2 == 1
    ensures Kept(1, 0, a, p, p, a, 0, 0, 1, 0)
  {
    assert Pow2(0) == 1;
    FromWitness(1 * a, Sgn(0) * (a * Pow2(0)), p, 0);
    FromWitness(0 * a, -(Sgn(0) * (p * Pow2(0))), p, 1);
  }

  /** Halving f i times while doubling c. */
  lemma HalvedKept(b: nat, c: nat, f: nat, g: nat, p: nat, a: nat, k: nat, s: nat, x: nat, y: nat, i: nat, f': nat)
    requires Kept(b, c, f, g, p, a, k, s, x, y) && f == f' * Pow2(i)
    ensures 0 <= c * Pow2(i) && 0 <= x * Pow2(i)
    ensures Kept(b, c * Pow2(i), f', g, p, a, k + i, s, x * Pow2(i), y)
  {
    assert Unlock(Key);
    hide Pow2, Congruent;
    var t := Pow2(i);
    NatProduct(c, t);
    NatProduct(x, t);
    Pow2Add(k, i);
    Reassociate(c, t, f');
    Reassociate(x, t, f');
    Reassociate2(f', Pow2(k), t);
    Times(c * a, -(Sgn(s) * (g * Pow2(k))), t, p);
    Reassociate3(c, a, t);
    ScaleSign(Sgn(s), g, Pow2(k), t);
  }

  lemma Reassociate(c: int, t: int, f: int)
    ensures c * t * f == c * (f * t)
  {
  }

  lemma Reassociate2(f: int, u: int, t: int)
    ensures f * (u * t) == f * t * u
  {
  }

  lemma Reassociate3(c: int, a: int, t: int)
    ensures c * a * t == c * t * a
  {
  }

  lemma ScaleSign(sign: int, g: int, u: int, t: int)
    ensures -(sign * (g * u)) * t == -(sign * (g * (u * t)))
  {
    MulAssoc(g, u, t);
    MulAssoc(sign, g * u, t);
    NegMul(sign * (g * u), t);
  }

  lemma SwappedKept(b: nat, c: nat, f: nat, g: nat, p: nat, a: nat, k: nat, s: nat, x: nat, y: nat)
    requires Kept(b, c, f, g, p, a, k, s, x, y) && f % 2 == 1
    ensures Kept(c, b, g, f, p, a, k, s + 1, y, x)
  {
    assert Unlock(Key);
    hide Congruent, Pow2, Sgn;
    SignFlips(s);
    NegMul(Sgn(s), g * Pow2(k));
    NegMul(Sgn(s), f * Pow2(k));
  }

  lemma SignFlips(s: nat)
    ensures Sgn(s + 1) == -Sgn(s)
  {
  }

  /** f - g and b + c. */
  lemma SubtractedKept(b: nat, c: nat, f: nat, g: nat, p: nat, a: nat, k: nat, s: nat, x: nat, y: nat)
    requires Kept(b, c, f, g, p, a, k, s, x, y) && g <= f
    ensures Kept(b + c, c, f - g, g, p, a, k, s, x, x + y)
  {
    assert Unlock(Key);
    assert (b + c) * g + c * (f - g) == b * g + c * f;
    assert x * (f - g) + (x + y) * g == x * f + y * g;
    Sum(b * a, Sgn(s) * (f * Pow2(k)), c * a, -(Sgn(s) * (g * Pow2(k))), p);
    assert (b + c) * a == b * a + c * a;
    DistributeSign(Sgn(s), f, g, Pow2(k));
  }

  lemma DistributeSign(sign: int, f: int, g: int, u: int)
    ensures sign * ((f - g) * u) == sign * (f * u) + -(sign * (g * u))
  {
    assert (f - g) * u == f * u - g * u;
  }

  /** Both cofactors stay at most the modulus, so they fit its words. */
  lemma CofactorsBounded(b: nat, c: nat, f: nat, g: nat, p: nat, a: nat, k: nat, s: nat, x: nat, y: nat)
    requires Kept(b, c, f, g, p, a, k, s, x, y)
    ensures b <= p && 0 <= c * f <= p
    ensures f > 0 ==> c <= p
  {
    assert Unlock(Key);
    NatProduct(b, g);
    NatProduct(c, f);
    MulMonotone(1, g, b);
    MulComm(g, b);
    if f > 0 {
      MulMonotone(1, f, c);
      MulComm(f, c);
    }
  }

  /** f a power of two: b is, up to sign, an inverse of a times a power of two. */
  lemma FinishedKept(b: nat, c: nat, f: nat, g: nat, p: nat, a: nat, k: nat, s: nat, x: nat, y: nat, i: nat)
    requires Kept(b, c, f, g, p, a, k, s, x, y) && f == Pow2(i)
    ensures Congruent((if s % 2 == 0 then b else p - b) * a, Pow2(k + i), p)
  {
    assert Unlock(Key);
    Pow2Add(k, i);
    MulComm(Pow2(i), Pow2(k));
    if s % 2 != 0 {
      var j := Witness(b * a, -(Pow2(k + i) as int), p);
      assert (p - b) * a == p * a - b * a;
      MulComm(p, a);
      NegMul(j, p);
      AddMul(a, -j, p);
      FromWitness((p - b) * a, Pow2(k + i), p, a - j);
    }
  }

  /** f = 0: g divides both the input and the modulus. */
  lemma VanishedKept(b: nat, c: nat, g: nat, p: nat, a: nat, k: nat, s: nat, x: nat, y: nat)
    requires Kept(b, c, 0, g, p, a, k, s, x, y)
    ensures 0 < g && a % g == 0 && p % g == 0
  {
    assert Unlock(Key);
    DivModUnique(a, g, y, 0);
    DivModUnique(p, g, b, 0);
  }

  // ---- Memory ----

  /** Words from len upwards are zero. */
  ghost predicate Fits(s: seq<Word>, p: nat, len: nat, n: nat) {
    len <= n && p + n <= |s| && forall i :: p + len <= i < p + n ==> s[i] == 0
  }

  lemma FitsNum(s: seq<Word>, p: nat, len: nat, n: nat)
    requires Fits(s, p, len, n)
    ensures Num(s, p, n) == Num(s, p, len)
  {
    NumSplit(s, p, len, n - len);
    NumZero(s, p + len, n - len);
    assert Scale(len) * 0 == 0;
  }

  lemma FitsKept(s: seq<Word>, t: seq<Word>, lo: nat, k: nat, p: nat, len: nat, len': nat, n: nat)
    requires Fits(s, p, len, n) && OnlyChanged(s, t, lo, k) && Disjoint(p, n, lo, k) && len <= len' <= n
    ensures Fits(t, p, len', n)
  {
  }

  /** From zero words to the length in use. */
  lemma ZerosFit(s: seq<Word>, p: nat, len: nat, n: nat)
    requires len <= n && p + n <= |s| && forall i :: p + len <= i < p + n ==> s[i] == 0
    ensures Fits(s, p, len, n)
  {
  }

  lemma SmallFits(s: seq<Word>, p: nat, len: nat, n: nat)
    requires len <= n && p + n <= |s| && Num(s, p, n) < Scale(len)
    ensures Fits(s, p, len, n)
  {
    NumSplit(s, p, len, n - len);
    var high := Num(s, p + len, n - len);
    if high != 0 {
      MulMonotone(1, high, Scale(len));
      MulComm(high, Scale(len));
    }
    NumZero(s, p + len, n - len);
  }

  method EvenWordCount(m: array<Word>, x: nat, n: nat) returns (r: nat)
    requires n % 2 == 0 && x + n <= m.Length
    ensures r <= n && r % 2 == 0 && Fits(m[..], x, r, n)
    ensures r == 0 <==> Num(m[..], x, n) == 0
    ensures r > 0 ==> Scale(r - 2) <= Num(m[..], x, n)
  {
    r := n;
    while r > 0 && m[x + r - 2] == 0 && m[x + r - 1] == 0
      invariant r <= n && r % 2 == 0 && Fits(m[..], x, r, n)
    {
      r := r - 2;
    }
    FitsNum(m[..], x, r, n);
    if r > 0 {
      NumNext(m[..], x, r - 2);
      NumNext(m[..], x, r - 1);
      TopPair(Num(m[..], x, r - 2), m[x + r - 2], m[x + r - 1], Scale(r - 2), BASE);
    }
  }

  lemma TopPair(low: nat, x: nat, y: nat, scale: nat, base: nat)
    requires (x != 0 || y != 0) && 0 < base && 0 < scale
    ensures scale <= low + x * scale + y * (base * scale)
  {
    NatProduct(x, scale);
    NatProduct(y, base * scale);
    if x != 0 { MulMonotone(1, x, scale); } else { MulMonotone(1, y, base * scale); MulMonotone(1, base, scale); }
  }

  // ---- The state of the loop in memory ----

  /** The four n-word numbers of the loop, wherever the two pairs of pointers currently are. */
  datatype Pointers = Pointers(b: nat, c: nat, f: nat, g: nat, n: nat) {
    ghost predicate Apart(size: nat) {
      n % 2 == 0 &&
      b + n <= size && c + n <= size && f + n <= size && g + n <= size &&
      Disjoint(b, n, c, n) && Disjoint(b, n, f, n) && Disjoint(b, n, g, n) &&
      Disjoint(c, n, f, n) && Disjoint(c, n, g, n) && Disjoint(f, n, g, n)
    }
  }

  /** Loop variables: lengths in use, halvings, swaps; and the ghost side of the invariant. */
  datatype Progress = Progress(bcLen: nat, fgLen: nat, k: nat, s: nat)

  datatype Goal = Goal(modulus: nat, input: nat, x: nat, y: nat)

  ghost predicate State(m: seq<Word>, at: Pointers, pr: Progress, goal: Goal) {
    at.Apart(|m|) &&
    pr.bcLen % 2 == 0 && pr.fgLen % 2 == 0 && 2 <= pr.bcLen <= at.n && 2 <= pr.fgLen <= at.n &&
    Fits(m, at.b, pr.bcLen, at.n) && Fits(m, at.c, pr.bcLen, at.n) &&
    Fits(m, at.f, pr.fgLen, at.n) && Fits(m, at.g, pr.fgLen, at.n) &&
    goal.modulus < Scale(at.n) &&
    Kept(Num(m, at.b, at.n), Num(m, at.c, at.n), Num(m, at.f, at.n), Num(m, at.g, at.n),
         goal.modulus, goal.input, pr.k, pr.s, goal.x, goal.y)
  }

  /** The current f and g. */
  ghost function FNum(m: seq<Word>, at: Pointers): nat {
    if at.f + at.n <= |m| then Num(m, at.f, at.n) else 0
  }

  ghost function GNum(m: seq<Word>, at: Pointers): nat {
    if at.g + at.n <= |m| then Num(m, at.g, at.n) else 0
  }

  /** Only the four numbers may have changed. */
  ghost predicate OutsideKept(s: seq<Word>, t: seq<Word>, at: Pointers) {
    |s| == |t| &&
    forall i {:trigger t[i]} :: 0 <= i < |s| && !(at.b <= i < at.b + at.n) && !(at.c <= i < at.c + at.n) && !(at.f <= i < at.f + at.n) && !(at.g <= i < at.g + at.n) ==> t[i] == s[i]
  }

  /** One whole word of zeros leaves f, one enters c. */
  method StripWord(m: array<Word>, at: Pointers, pr: Progress, ghost goal: Goal) returns (pr': Progress, ghost goal': Goal)
    requires State(m[..], at, pr, goal) && m[at.f] == 0 && FNum(m[..], at) != 0
    modifies m
    ensures State(m[..], at, pr', goal')
    ensures goal'.modulus == goal.modulus && goal'.input == goal.input
    ensures 0 < FNum(m[..], at) < old(FNum(m[..], at))
    ensures GNum(m[..], at) == old(GNum(m[..], at))
    ensures OutsideKept(old(m[..]), m[..], at)
  {
    hide *;
    Bounds(m[..], at, pr, goal);
    ghost var s0 := m[..];
    ShiftWordsRightByWords(m, at.f, pr.fgLen, 1);
    ghost var s1 := m[..];
    DownMoved(s0, s1, at, pr, goal);
    var bcLen := pr.bcLen;
    var top := m[at.c + bcLen - 1];
    if top != 0 {
      RoomToGrow(s0, at, pr, goal, FNum(s1, at));
      bcLen := bcLen + 2;
    }
    TopWordFree(s0, s1, at, pr, goal, bcLen, top);
    ShiftWordsLeftByWords(m, at.c, bcLen, 1);
    pr' := Progress(bcLen, pr.fgLen, pr.k + WORD_BITS, pr.s);
    goal' := UpMoved(s0, s1, m[..], at, pr, bcLen, goal);
  }

  lemma Bounds(m: seq<Word>, at: Pointers, pr: Progress, goal: Goal)
    requires State(m, at, pr, goal)
    ensures at.b + at.n <= |m| && at.c + at.n <= |m| && at.f + at.n <= |m| && at.g + at.n <= |m| && at.n % 2 == 0
    ensures 2 <= pr.bcLen <= at.n && 2 <= pr.fgLen <= at.n && pr.bcLen % 2 == 0 && pr.fgLen % 2 == 0
  {
  }

  lemma DownMoved(s0: seq<Word>, s1: seq<Word>, at: Pointers, pr: Progress, goal: Goal)
    requires State(s0, at, pr, goal) && s0[at.f] == 0 && FNum(s0, at) != 0
    requires MovedDown(s0, s1, at.f, pr.fgLen, 1)
    ensures Fits(s1, at.f, pr.fgLen, at.n) && OnlyChanged(s0, s1, at.f, at.n)
    ensures FNum(s0, at) == FNum(s1, at) * Pow2(WORD_BITS)
    ensures 0 < FNum(s1, at) < FNum(s0, at)
    ensures s1[at.c + pr.bcLen - 1] == s0[at.c + pr.bcLen - 1]
  {
    hide Num, Scale, Kept, Pow2;
    ShiftedDownNum(s0, s1, at.f, pr.fgLen, at.n);
  }

  lemma TopWordFree(s0: seq<Word>, s1: seq<Word>, at: Pointers, pr: Progress, goal: Goal, bcLen: nat, top: Word)
    requires State(s0, at, pr, goal) && OnlyChanged(s0, s1, at.f, at.n)
    requires top == s1[at.c + pr.bcLen - 1] && bcLen == if top != 0 then pr.bcLen + 2 else pr.bcLen
    requires bcLen <= at.n
    ensures bcLen % 2 == 0
    ensures s1[at.c + bcLen - 1] == 0
  {
    hide Num, Scale, Kept;
  }

  lemma UpMoved(s0: seq<Word>, s1: seq<Word>, s2: seq<Word>, at: Pointers, pr: Progress, bcLen: nat, goal: Goal) returns (goal': Goal)
    requires State(s0, at, pr, goal) && OnlyChanged(s0, s1, at.f, at.n) && Fits(s1, at.f, pr.fgLen, at.n)
    requires pr.bcLen <= bcLen <= at.n && bcLen % 2 == 0 && MovedUp(s1, s2, at.c, bcLen, 1) && s1[at.c + bcLen - 1] == 0
    requires FNum(s0, at) == FNum(s1, at) * Pow2(WORD_BITS)
    ensures State(s2, at, Progress(bcLen, pr.fgLen, pr.k + WORD_BITS, pr.s), goal')
    ensures goal'.modulus == goal.modulus && goal'.input == goal.input
    ensures FNum(s2, at) == FNum(s1, at) && GNum(s2, at) == GNum(s0, at)
    ensures OutsideKept(s0, s2, at)
  {
    hide Num, Scale, Kept, Pow2;
    NumsKept(s0, s1, at.f, at.n);
    ShiftedUpNum(s1, s2, at.c, bcLen, at.n);
    NumsKept(s1, s2, at.c, bcLen);
    goal' := ShiftedState(s0, s2, at, pr, bcLen, WORD_BITS, goal);
  }

  /** f divided and c multiplied by 2^i, nothing else changed. */
  lemma ShiftedState(s: seq<Word>, t: seq<Word>, at: Pointers, pr: Progress, bcLen: nat, i: nat, goal: Goal) returns (goal': Goal)
    requires State(s, at, pr, goal) && bcLen % 2 == 0 && pr.bcLen <= bcLen <= at.n
    requires OnlyChanged2(s, t, at.c, at.n, at.f, at.n)
    requires Fits(t, at.c, bcLen, at.n) && Fits(t, at.f, pr.fgLen, at.n)
    requires FNum(s, at) == FNum(t, at) * Pow2(i) && Num(t, at.c, at.n) == Num(s, at.c, at.n) * Pow2(i)
    ensures State(t, at, Progress(bcLen, pr.fgLen, pr.k + i, pr.s), goal')
    ensures goal'.modulus == goal.modulus && goal'.input == goal.input
    ensures GNum(t, at) == GNum(s, at)
  {
    hide Num, Scale, Kept, Pow2;
    NumsKept2(s, t, at.c, at.n, at.f, at.n);
    HalvedKept(Num(s, at.b, at.n), Num(s, at.c, at.n), FNum(s, at), GNum(s, at),
               goal.modulus, goal.input, pr.k, pr.s, goal.x, goal.y, i, FNum(t, at));
    goal' := Goal(goal.modulus, goal.input, goal.x * Pow2(i), goal.y);
  }

  lemma ShiftedDownNum(s: seq<Word>, t: seq<Word>, p: nat, len: nat, n: nat)
    requires 0 < len && Fits(s, p, len, n) && MovedDown(s, t, p, len, 1) && s[p] == 0 && Num(s, p, n) != 0
    ensures Fits(t, p, len, n)
    ensures Num(s, p, n) == Num(t, p, n) * Pow2(WORD_BITS)
    ensures 0 < Num(t, p, n) < Num(s, p, n)
  {
    hide Num, Scale, Pow2;
    FitsNum(s, p, len, n);
    FitsNum(t, p, len, n);
    FirstWord(s, p, len);
    NumNext(t, p, len - 1);
    NumSame(t, p, s, p + 1, len - 1);
    MulComm(BASE, Num(t, p, n));
    GrowsByBase(Num(t, p, n), Num(s, p, n));
  }

  lemma GrowsByBase(x: nat, y: nat)
    requires y == BASE * x && y != 0
    ensures 0 < x < y
  {
    BaseAtLeast256();
    if x == 0 { MulEqual(BASE, x, BASE, 0); }
    MulMonotone(2, BASE, x);
  }

  lemma ShiftedUpNum(s: seq<Word>, t: seq<Word>, p: nat, len: nat, n: nat)
    requires 0 < len && Fits(s, p, len, n) && MovedUp(s, t, p, len, 1) && s[p + len - 1] == 0
    ensures Fits(t, p, len, n)
    ensures Num(t, p, n) == Num(s, p, n) * Pow2(WORD_BITS)
  {
    hide Num, Scale, Pow2;
    FitsNum(s, p, len, n);
    FitsNum(t, p, len, n);
    FirstWord(t, p, len);
    NumNext(s, p, len - 1);
    NumSame(t, p + 1, s, p, len - 1);
    MulComm(BASE, Num(s, p, n));
  }

  /** If the top word in use of c is occupied while f still has a factor BASE, c is not yet at full length. */
  lemma RoomToGrow(m: seq<Word>, at: Pointers, pr: Progress, goal: Goal, f': nat)
    requires State(m, at, pr, goal) && m[at.c + pr.bcLen - 1] != 0
    requires FNum(m, at) == f' * Pow2(WORD_BITS) && 0 < f'
    ensures pr.bcLen + 2 <= at.n
  {
    hide Num, Scale, Kept, Pow2;
    var c, f := Num(m, at.c, at.n), FNum(m, at);
    CofactorsBounded(Num(m, at.b, at.n), c, f, GNum(m, at), goal.modulus, goal.input, pr.k, pr.s, goal.x, goal.y);
    FitsNum(m, at.c, pr.bcLen, at.n);
    NumNext(m, at.c, pr.bcLen - 1);
    LeadingWord(Num(m, at.c, pr.bcLen - 1), m[at.c + pr.bcLen - 1], Scale(pr.bcLen - 1));
    GrowthBound(c, f, f', BASE, Scale(pr.bcLen - 1), goal.modulus);
    RoomForTwo(pr.bcLen, at.n);
  }

  lemma RoomForTwo(len: nat, n: nat)
    requires len % 2 == 0 && n % 2 == 0 && len <= n && Scale(len) < Scale(n)
    ensures len + 2 <= n
  {
  }

  lemma LeadingWord(low: nat, top: nat, scale: nat)
    requires top != 0
    ensures scale <= low + top * scale
  {
    MulMonotone(1, top, scale);
  }

  lemma GrowthBound(c: nat, f: nat, f': nat, base: nat, scale: nat, p: nat)
    requires scale <= c && f == f' * base && 0 < f' && c * f <= p
    ensures base * scale <= p
  {
    MulMonotone(1, f', base);
    MulMonotone(scale, c, f);
    MulMonotone(base, f, scale);
    MulComm(f, scale);
  }

  // ---- The other steps of an iteration ----

  /** t = odd * 2^i. */
  method TrailingZeros(t0: Word) returns (t: Word, i: nat)
    requires t0 != 0
    ensures t % 2 == 1 && t0 == t * Pow2(i) && i < WORD_BITS
  {
    t, i := t0, 0;
    while t % 2 == 0
      invariant t != 0 && t0 == t * Pow2(i)
      decreases t
    {
      HalveOnce(t, i);
      t := t / 2;
      i := i + 1;
    }
    if i >= WORD_BITS {
      Pow2Monotone(WORD_BITS, i);
      MulMonotone(1, t, Pow2(i));
    }
  }

  lemma HalveOnce(t: nat, i: nat)
    requires t % 2 == 0
    ensures t * Pow2(i) == t / 2 * Pow2(i + 1)
  {
    var h := t / 2;
    assert t == h * 2;
    MulAssoc(h, 2, Pow2(i));
  }

  /** Shifts f right and c left by i bits, where f is divisible by 2^i. */
  method ShiftBits(m: array<Word>, at: Pointers, pr: Progress, i: nat, odd: Word, ghost goal: Goal) returns (pr': Progress, ghost goal': Goal)
    requires State(m[..], at, pr, goal) && i < WORD_BITS && m[at.f] == odd * Pow2(i) && odd % 2 == 1
    modifies m
    ensures State(m[..], at, pr', goal')
    ensures goal'.modulus == goal.modulus && goal'.input == goal.input
    ensures pr'.k == pr.k + i && pr'.s == pr.s && pr'.fgLen == pr.fgLen
    ensures old(FNum(m[..], at)) == FNum(m[..], at) * Pow2(i) && FNum(m[..], at) % 2 == 1
    ensures GNum(m[..], at) == old(GNum(m[..], at))
    ensures OutsideKept(old(m[..]), m[..], at)
  {
    hide *;
    ghost var s0 := m[..];
    Bounds(s0, at, pr, goal);
    var dropped := ShiftWordsRightByBits(m, at.f, pr.fgLen, i);
    ghost var s1 := m[..];
    HalvedF(s0, s1, at, pr, goal, i, odd);
    var t := ShiftWordsLeftByBits(m, at.c, pr.bcLen, i);
    ghost var s2 := m[..];
    var bcLen := pr.bcLen;
    if t != 0 {
      CarryFitsLength(s0, s1, s2, at, pr, goal, i, t);
      m[at.c + bcLen] := t;
      bcLen := bcLen + 2;
    }
    pr' := Progress(bcLen, pr.fgLen, pr.k + i, pr.s);
    goal' := DoubledC(s0, s1, s2, m[..], at, pr, bcLen, i, t, goal);
  }

  lemma HalvedF(s0: seq<Word>, s1: seq<Word>, at: Pointers, pr: Progress, goal: Goal, i: nat, odd: nat)
    requires State(s0, at, pr, goal) && OnlyChanged(s0, s1, at.f, pr.fgLen)
    requires Num(s1, at.f, pr.fgLen) == Num(s0, at.f, pr.fgLen) / Pow2(i)
    requires i < WORD_BITS && s0[at.f] == odd * Pow2(i) && odd % 2 == 1
    ensures Fits(s1, at.f, pr.fgLen, at.n) && OnlyChanged(s0, s1, at.f, at.n)
    ensures FNum(s0, at) == FNum(s1, at) * Pow2(i) && FNum(s1, at) % 2 == 1
  {
    hide Num, Scale, Kept, Pow2;
    HalvedNumber(s0, s1, at.f, pr.fgLen, at.n, i, odd);
  }

  lemma DoubledC(s0: seq<Word>, s1: seq<Word>, s2: seq<Word>, s3: seq<Word>, at: Pointers, pr: Progress, bcLen: nat, i: nat, t: Word, goal: Goal)
      returns (goal': Goal)
    requires State(s0, at, pr, goal) && OnlyChanged(s0, s1, at.f, at.n) && Fits(s1, at.f, pr.fgLen, at.n)
    requires FNum(s0, at) == FNum(s1, at) * Pow2(i)
    requires OnlyChanged(s1, s2, at.c, pr.bcLen) && Num(s2, at.c, pr.bcLen) + t * Scale(pr.bcLen) == Num(s1, at.c, pr.bcLen) * Pow2(i)
    requires bcLen == if t != 0 then pr.bcLen + 2 else pr.bcLen
    requires bcLen <= at.n && s3 == if t != 0 then s2[at.c + pr.bcLen := t] else s2
    ensures State(s3, at, Progress(bcLen, pr.fgLen, pr.k + i, pr.s), goal')
    ensures goal'.modulus == goal.modulus && goal'.input == goal.input
    ensures FNum(s3, at) == FNum(s1, at) && GNum(s3, at) == GNum(s0, at)
    ensures OutsideKept(s0, s3, at)
  {
    hide *;
    StateLayout(s0, at, pr, goal);
    DoubledWords(s0, s1, s2, s3, at, pr.bcLen, bcLen, pr.fgLen, i, t);
    SameNumbers(s1, s3, at);
    MulEqual(FNum(s1, at), Pow2(i), FNum(s3, at), Pow2(i));
    goal' := ShiftedState(s0, s3, at, pr, bcLen, i, goal);
  }

  lemma StateLayout(s: seq<Word>, at: Pointers, pr: Progress, goal: Goal)
    requires State(s, at, pr, goal)
    ensures at.Apart(|s|) && at.c + at.n <= |s| && at.f + at.n <= |s| && at.n % 2 == 0
    ensures pr.bcLen % 2 == 0 && pr.bcLen <= at.n && Fits(s, at.c, pr.bcLen, at.n)
  {
  }

  lemma SameNumbers(s: seq<Word>, t: seq<Word>, at: Pointers)
    requires |s| == |t| && at.f + at.n <= |s| && Num(t, at.f, at.n) == Num(s, at.f, at.n)
    ensures FNum(t, at) == FNum(s, at)
  {
    hide Num;
  }

  lemma DoubledWords(s0: seq<Word>, s1: seq<Word>, s2: seq<Word>, s3: seq<Word>, at: Pointers, len: nat, len': nat, fgLen: nat, i: nat, t: Word)
    requires at.Apart(|s0|) && Fits(s0, at.c, len, at.n) && OnlyChanged(s0, s1, at.f, at.n) && Fits(s1, at.f, fgLen, at.n)
    requires OnlyChanged(s1, s2, at.c, len) && Num(s2, at.c, len) + t * Scale(len) == Num(s1, at.c, len) * Pow2(i)
    requires len' == (if t != 0 then len + 2 else len) && len' <= at.n
    requires s3 == if t != 0 then s2[at.c + len := t] else s2
    ensures |s3| == |s1| == |s0| && Fits(s3, at.c, len', at.n) && Fits(s3, at.f, fgLen, at.n)
    ensures OnlyChanged2(s0, s3, at.c, at.n, at.f, at.n) && OutsideKept(s0, s3, at)
    ensures Num(s3, at.c, at.n) == Num(s0, at.c, at.n) * Pow2(i) && Num(s3, at.f, at.n) == Num(s1, at.f, at.n)
  {
    CarryStored(s2, s3, at.c, len, at.n, t);
    hide Num, Scale, Pow2, OnlyChanged, OnlyChanged2, OutsideKept, Fits;
    FitsKept(s0, s1, at.f, at.n, at.c, len, len, at.n);
    NumsKept(s0, s1, at.f, at.n);
    DoubledNumber(s1, s2, s3, at.c, len, at.n, i, t);
    MulEqual(Num(s1, at.c, at.n), Pow2(i), Num(s0, at.c, at.n), Pow2(i));
    FitsKept(s1, s3, at.c, at.n, at.f, fgLen, fgLen, at.n);
    NumsKept(s1, s3, at.c, at.n);
    BothChanged(s0, s1, s3, at);
  }

  lemma CarryStored(s: seq<Word>, t: seq<Word>, c: nat, len: nat, n: nat, carry: Word)
    requires c + n <= |s| && (carry != 0 ==> len < n) && t == if carry != 0 then s[c + len := carry] else s
    ensures |t| == |s| && (carry != 0 ==> OnlyChanged(s, t, c + len, 1) && t[c + len] == carry)
  {
  }

  lemma BothChanged(s: seq<Word>, t: seq<Word>, u: seq<Word>, at: Pointers)
    requires at.Apart(|s|) && OnlyChanged(s, t, at.f, at.n) && OnlyChanged(t, u, at.c, at.n)
    ensures OnlyChanged2(s, u, at.c, at.n, at.f, at.n) && OutsideKept(s, u, at)
  {
  }

  lemma HalvedNumber(s: seq<Word>, t: seq<Word>, f: nat, len: nat, n: nat, i: nat, odd: nat)
    requires 0 < len && Fits(s, f, len, n) && OnlyChanged(s, t, f, len)
    requires Num(t, f, len) == Num(s, f, len) / Pow2(i)
    requires i < WORD_BITS && s[f] == odd * Pow2(i) && odd % 2 == 1
    ensures Fits(t, f, len, n)
    ensures Num(s, f, n) == Num(t, f, n) * Pow2(i) && Num(t, f, n) % 2 == 1
  {
    hide Num, Scale;
    FitsNum(s, f, len, n);
    FitsNum(t, f, len, n);
    FirstWord(s, f, len);
    WordSplit(i);
    var rest, u := Num(s, f + 1, len - 1), Pow2(WORD_BITS - i - 1);
    assert Pow2(WORD_BITS - i) == 2 * u;
    OddQuotient(odd, Pow2(i), u, rest, Num(s, f, len), BASE);
  }

  lemma OddQuotient(odd: nat, p: nat, u: nat, rest: nat, x: nat, base: nat)
    requires 0 < p && base == p * (2 * u) && x == odd * p + base * rest && odd % 2 == 1
    ensures x == x / p * p && x / p % 2 == 1
  {
    var e := u * rest;
    MulEqual(base, rest, p * (2 * u), rest);
    DoubleTimes(p, u, rest);
    AddMul(odd, 2 * e, p);
    OddAdded(odd, e);
    DivModUnique(x, p, odd + 2 * e, 0);
  }

  lemma DoubleTimes(p: int, u: int, rest: int)
    ensures p * (2 * u) * rest == 2 * (u * rest) * p
  {
  }

  lemma OddAdded(x: int, e: int)
    requires x % 2 == 1
    ensures (x + 2 * e) % 2 == 1
  {
  }

  lemma CarryFitsLength(s0: seq<Word>, s1: seq<Word>, s2: seq<Word>, at: Pointers, pr: Progress, goal: Goal, i: nat, t: nat)
    requires State(s0, at, pr, goal) && |s1| == |s2| == |s0| && t != 0
    requires FNum(s0, at) == FNum(s1, at) * Pow2(i) && 0 < FNum(s1, at)
    requires OnlyChanged(s0, s1, at.f, at.n)
    requires Num(s2, at.c, pr.bcLen) + t * Scale(pr.bcLen) == Num(s1, at.c, pr.bcLen) * Pow2(i)
    ensures pr.bcLen + 2 <= at.n
  {
    hide Num, Scale, Kept, Pow2;
    var c, f := Num(s0, at.c, at.n), FNum(s0, at);
    CofactorsBounded(Num(s0, at.b, at.n), c, f, GNum(s0, at), goal.modulus, goal.input, pr.k, pr.s, goal.x, goal.y);
    FitsNum(s0, at.c, pr.bcLen, at.n);
    NumSame(s1, at.c, s0, at.c, pr.bcLen);
    LeadingWord(Num(s2, at.c, pr.bcLen), t, Scale(pr.bcLen));
    MulMonotone(1, FNum(s1, at), Pow2(i));
    MulMonotone(Pow2(i), f, c);
    MulComm(Pow2(i), c);
    MulComm(f, c);
    RoomForTwo(pr.bcLen, at.n);
  }

  lemma DoubledNumber(s: seq<Word>, t: seq<Word>, u: seq<Word>, c: nat, len: nat, n: nat, i: nat, carry: Word)
    requires Fits(s, c, len, n) && OnlyChanged(s, t, c, len) && |u| == |t|
    requires Num(t, c, len) + carry * Scale(len) == Num(s, c, len) * Pow2(i)
    requires carry != 0 ==> len + 2 <= n && OnlyChanged(t, u, c + len, 1) && u[c + len] == carry
    requires carry == 0 ==> u == t
    ensures Fits(u, c, if carry != 0 then len + 2 else len, n)
    ensures Num(u, c, n) == Num(s, c, n) * Pow2(i)
    ensures OnlyChanged(s, u, c, n)
  {
    hide Num, Scale, Pow2;
    FitsNum(s, c, len, n);
    if carry != 0 {
      NumsKept(t, u, c + len, 1);
      FitsNum(u, c, len + 1, n);
      NumNext(u, c, len);
    } else {
      FitsNum(u, c, len, n);
    }
  }

  lemma ModulusSideOdd(m: seq<Word>, at: Pointers, pr: Progress, goal: Goal)
    requires State(m, at, pr, goal)
    ensures GNum(m, at) % 2 == 1
  {
    assert Unlock(Key);
  }

  /** Drops two words of f and g that are both zero; some word of the odd number g stays. */
  method Shrink(m: array<Word>, at: Pointers, pr: Progress, ghost goal: Goal) returns (pr': Progress)
    requires State(m[..], at, pr, goal)
    ensures State(m[..], at, pr', goal) && pr'.k == pr.k && pr'.s == pr.s
  {
    hide Num, Scale;
    ModulusSideOdd(m[..], at, pr, goal);
    var len := pr.fgLen;
    if m[at.f + len - 2] == 0 && m[at.g + len - 2] == 0 && m[at.f + len - 1] == 0 && m[at.g + len - 1] == 0 {
      FitsNum(m[..], at.g, len - 2, at.n);
      NumShort(m[..], at.g);
      len := len - 2;
    }
    pr' := pr.(fgLen := len);
  }

  /** Orders the two numbers, subtracts the smaller from the larger, and adds the cofactors. */
  method SubtractSmaller(m: array<Word>, at: Pointers, pr: Progress, ghost goal: Goal) returns (at': Pointers, pr': Progress, ghost goal': Goal)
    requires State(m[..], at, pr, goal) && FNum(m[..], at) % 2 == 1
    modifies m
    ensures State(m[..], at', pr', goal') && pr'.k == pr.k
    ensures goal'.modulus == goal.modulus && goal'.input == goal.input
    ensures at' == at || at' == Pointers(at.c, at.b, at.g, at.f, at.n)
    ensures var f, g := old(FNum(m[..], at)), old(GNum(m[..], at));
            GNum(m[..], at') == (if f < g then f else g) &&
            FNum(m[..], at') == (if f < g then g - f else f - g)
    ensures OutsideKept(old(m[..]), m[..], at)
  {
    hide Num, Scale, Kept;
    at', pr', goal' := at, pr, goal;
    FitsNum(m[..], at.f, pr.fgLen, at.n);
    FitsNum(m[..], at.g, pr.fgLen, at.n);
    var order := Compare(m, at.f, at.g, pr.fgLen);
    if order == -1 {
      SwappedKept(Num(m[..], at.b, at.n), Num(m[..], at.c, at.n), FNum(m[..], at), GNum(m[..], at),
                  goal.modulus, goal.input, pr.k, pr.s, goal.x, goal.y);
      at' := Pointers(at.c, at.b, at.g, at.f, at.n);
      pr' := pr.(s := pr.s + 1);
      goal' := Goal(goal.modulus, goal.input, goal.y, goal.x);
    }
    pr', goal' := SubtractOrdered(m, at', pr', goal');
  }

  method SubtractOrdered(m: array<Word>, at: Pointers, pr: Progress, ghost goal: Goal) returns (pr': Progress, ghost goal': Goal)
    requires State(m[..], at, pr, goal) && GNum(m[..], at) <= FNum(m[..], at)
    modifies m
    ensures State(m[..], at, pr', goal') && pr'.k == pr.k && pr'.s == pr.s
    ensures goal'.modulus == goal.modulus && goal'.input == goal.input
    ensures GNum(m[..], at) == old(GNum(m[..], at))
    ensures FNum(m[..], at) == old(FNum(m[..], at)) - old(GNum(m[..], at))
    ensures OutsideKept(old(m[..]), m[..], at)
  {
    hide Num, Scale, Kept;
    ghost var s0 := m[..];
    var borrow := Subtract(m, at.f, at.f, at.g, pr.fgLen);
    ghost var s1 := m[..];
    DifferenceNumber(s0, s1, at.f, at.g, pr.fgLen, at.n, borrow);
    NumsKept(s0, s1, at.f, pr.fgLen);
    SumBounded(s0, at, pr, goal);
    FitsKept(s0, s1, at.f, pr.fgLen, at.b, pr.bcLen, pr.bcLen, at.n);
    FitsKept(s0, s1, at.f, pr.fgLen, at.c, pr.bcLen, pr.bcLen, at.n);
    var bcLen := AddCofactors(m, at, pr.bcLen);
    pr' := pr.(bcLen := bcLen);
    goal' := goal.(y := goal.x + goal.y);
    SubtractedState(s0, s1, m[..], at, pr, bcLen, goal);
  }

  lemma SumBounded(s: seq<Word>, at: Pointers, pr: Progress, goal: Goal)
    requires State(s, at, pr, goal) && GNum(s, at) <= FNum(s, at)
    ensures Num(s, at.b, at.n) + Num(s, at.c, at.n) <= goal.modulus
  {
    hide Num, Scale, Kept;
    SubtractedKept(Num(s, at.b, at.n), Num(s, at.c, at.n), FNum(s, at), GNum(s, at),
                   goal.modulus, goal.input, pr.k, pr.s, goal.x, goal.y);
    CofactorsBounded(Num(s, at.b, at.n) + Num(s, at.c, at.n), Num(s, at.c, at.n), FNum(s, at) - GNum(s, at),
                     GNum(s, at), goal.modulus, goal.input, pr.k, pr.s, goal.x, goal.x + goal.y);
  }

  lemma SubtractedState(s: seq<Word>, s1: seq<Word>, t: seq<Word>, at: Pointers, pr: Progress, bcLen: nat, goal: Goal)
    requires State(s, at, pr, goal) && bcLen % 2 == 0 && pr.bcLen <= bcLen <= at.n
    requires OnlyChanged(s, s1, at.f, at.n) && OnlyChanged(s1, t, at.b, at.n)
    requires Fits(t, at.b, bcLen, at.n) && Fits(s1, at.f, pr.fgLen, at.n)
    requires GNum(s, at) <= FNum(s, at)
    requires FNum(s1, at) == FNum(s, at) - GNum(s, at) && Num(t, at.b, at.n) == Num(s1, at.b, at.n) + Num(s1, at.c, at.n)
    ensures State(t, at, pr.(bcLen := bcLen), goal.(y := goal.x + goal.y))
    ensures GNum(t, at) == GNum(s, at) && FNum(t, at) == FNum(s, at) - GNum(s, at)
    ensures OutsideKept(s, t, at)
  {
    hide Num, Scale, Kept, Fits;
    NumsKept(s, s1, at.f, at.n);
    NumsKept(s1, t, at.b, at.n);
    FitsKept(s, s1, at.f, at.n, at.c, pr.bcLen, pr.bcLen, at.n);
    FitsKept(s1, t, at.b, at.n, at.c, pr.bcLen, bcLen, at.n);
    FitsKept(s, s1, at.f, at.n, at.g, pr.fgLen, pr.fgLen, at.n);
    FitsKept(s1, t, at.b, at.n, at.g, pr.fgLen, pr.fgLen, at.n);
    FitsKept(s1, t, at.b, at.n, at.f, pr.fgLen, pr.fgLen, at.n);
    SubtractedKept(Num(s, at.b, at.n), Num(s, at.c, at.n), FNum(s, at), GNum(s, at),
                   goal.modulus, goal.input, pr.k, pr.s, goal.x, goal.y);
  }

  lemma DifferenceNumber(s: seq<Word>, t: seq<Word>, f: nat, g: nat, len: nat, n: nat, borrow: nat)
    requires Fits(s, f, len, n) && Fits(s, g, len, n) && OnlyChanged(s, t, f, len) && borrow <= 1
    requires Num(t, f, len) - borrow * Scale(len) == Num(s, f, len) - Num(s, g, len)
    requires Num(s, g, n) <= Num(s, f, n)
    ensures Fits(t, f, len, n) && Num(t, f, n) == Num(s, f, n) - Num(s, g, n)
  {
    hide Num, Scale;
    FitsNum(s, f, len, n);
    FitsNum(s, g, len, n);
    FitsNum(t, f, len, n);
    NumBound(t, f, len);
  }

  /** c onto b, whose length in use may grow by a pair of words. */
  method AddCofactors(m: array<Word>, at: Pointers, bcLen: nat) returns (bcLen': nat)
    requires at.Apart(m.Length) && bcLen % 2 == 0 && 2 <= bcLen
    requires Fits(m[..], at.b, bcLen, at.n) && Fits(m[..], at.c, bcLen, at.n)
    requires Num(m[..], at.b, at.n) + Num(m[..], at.c, at.n) < Scale(at.n)
    modifies m
    ensures bcLen' % 2 == 0 && bcLen <= bcLen' <= at.n && Fits(m[..], at.b, bcLen', at.n)
    ensures Num(m[..], at.b, at.n) == old(Num(m[..], at.b, at.n)) + old(Num(m[..], at.c, at.n))
    ensures OnlyChanged(old(m[..]), m[..], at.b, at.n)
  {
    hide Num, Scale;
    ghost var s1 := m[..];
    var carry := Add(m, at.b, at.b, at.c, bcLen);
    ghost var s2 := m[..];
    bcLen' := bcLen;
    if carry != 0 {
      SumFitsLength(s1, at, bcLen, Num(s2, at.b, bcLen), carry);
      m[at.b + bcLen] := 1;
      bcLen' := bcLen + 2;
    }
    SumNumber(s1, s2, m[..], at.b, at.c, bcLen, at.n, carry);
  }

  lemma SumFitsLength(s: seq<Word>, at: Pointers, bcLen: nat, sum: nat, carry: nat)
    requires at.Apart(|s|) && bcLen % 2 == 0 && carry != 0
    requires Fits(s, at.b, bcLen, at.n) && Fits(s, at.c, bcLen, at.n)
    requires Num(s, at.b, at.n) + Num(s, at.c, at.n) < Scale(at.n)
    requires sum + carry * Scale(bcLen) == Num(s, at.b, bcLen) + Num(s, at.c, bcLen)
    ensures bcLen + 2 <= at.n
  {
    hide Num, Scale;
    FitsNum(s, at.b, bcLen, at.n);
    FitsNum(s, at.c, bcLen, at.n);
    LeadingWord(sum, carry, Scale(bcLen));
    RoomForTwo(bcLen, at.n);
  }

  lemma SumNumber(s: seq<Word>, t: seq<Word>, u: seq<Word>, b: nat, c: nat, len: nat, n: nat, carry: nat)
    requires Fits(s, b, len, n) && Fits(s, c, len, n) && OnlyChanged(s, t, b, len) && |u| == |t| && carry <= 1
    requires Num(t, b, len) + carry * Scale(len) == Num(s, b, len) + Num(s, c, len)
    requires carry != 0 ==> len + 2 <= n && OnlyChanged(t, u, b + len, 1) && u[b + len] == 1
    requires carry == 0 ==> u == t
    ensures Fits(u, b, if carry != 0 then len + 2 else len, n)
    ensures Num(u, b, n) == Num(s, b, n) + Num(s, c, n)
    ensures OnlyChanged(s, u, b, n)
  {
    hide Num, Scale;
    FitsNum(s, b, len, n);
    FitsNum(s, c, len, n);
    if carry != 0 {
      NumsKept(t, u, b + len, 1);
      FitsNum(u, b, len + 1, n);
      NumNext(u, b, len);
    } else {
      FitsNum(u, b, len, n);
    }
  }

  /** Removes all zero words at the bottom of f; zero reports that f has vanished. */
  method StripWords(m: array<Word>, at: Pointers, pr: Progress, ghost goal: Goal) returns (zero: bool, pr': Progress, ghost goal': Goal)
    requires State(m[..], at, pr, goal)
    modifies m
    ensures State(m[..], at, pr', goal')
    ensures goal'.modulus == goal.modulus && goal'.input == goal.input
    ensures zero <==> old(FNum(m[..], at)) == 0
    ensures GNum(m[..], at) == old(GNum(m[..], at)) && FNum(m[..], at) <= old(FNum(m[..], at))
    ensures zero ==> FNum(m[..], at) == 0
    ensures !zero ==> m[at.f] != 0
    ensures OutsideKept(old(m[..]), m[..], at)
  {
    hide Num, Scale, Kept;
    pr', goal' := pr, goal;
    ghost var s0 := m[..];
    NonzeroWord(m[..], at, pr', goal');
    while m[at.f] == 0
      invariant State(m[..], at, pr', goal')
      invariant goal'.modulus == goal.modulus && goal'.input == goal.input
      invariant FNum(m[..], at) <= FNum(s0, at) && GNum(m[..], at) == GNum(s0, at)
      invariant FNum(s0, at) == 0 <==> FNum(m[..], at) == 0
      invariant m[at.f] != 0 ==> FNum(m[..], at) != 0
      invariant OutsideKept(s0, m[..], at)
      decreases FNum(m[..], at)
    {
      var count := EvenWordCount(m, at.f, pr'.fgLen);
      FitsNum(m[..], at.f, pr'.fgLen, at.n);
      if count == 0 {
        return true, pr', goal';
      }
      pr', goal' := StripWord(m, at, pr', goal');
    }
    zero := false;
  }

  lemma NonzeroWord(m: seq<Word>, at: Pointers, pr: Progress, goal: Goal)
    requires State(m, at, pr, goal)
    ensures m[at.f] != 0 ==> FNum(m, at) != 0
  {
    NumZero(m, at.f, at.n);
  }

  // ---- The algorithm ----

  /** The four regions of T, possibly with both pairs exchanged. */
  ghost predicate AtHome(at: Pointers, t: nat, n: nat) {
    at == Pointers(t, t + n, t + 2 * n, t + 3 * n, n) || at == Pointers(t + n, t, t + 3 * n, t + 2 * n, n)
  }

  ghost predicate InverseOperands(size: nat, r: nat, t: nat, a: nat, na: nat, p: nat, n: nat) {
    2 <= n && n % 2 == 0 && na <= n && r + n <= size && t + 4 * n <= size && a + na <= size && p + n <= size &&
    Disjoint(t, 4 * n, r, n) && Disjoint(t, 4 * n, a, na) && Disjoint(t, 4 * n, p, n) && Disjoint(r, n, p, n)
  }

  method AlmostInverse(m: array<Word>, r: nat, t: nat, a: nat, na: nat, p: nat, n: nat) returns (k: nat, ghost divisor: nat)
    requires InverseOperands(m.Length, r, t, a, na, p, n)
    requires m[p] % 2 == 1 && Num(m[..], a, na) < Num(m[..], p, n)
    modifies m
    ensures var x, modulus, input := Num(m[..], r, n), old(Num(m[..], p, n)), old(Num(m[..], a, na));
            if divisor == 0 then 0 < x < modulus && Congruent(x * input, Pow2(k), modulus)
            else x == 0 && k == 0 && input % divisor == 0 && modulus % divisor == 0 && (divisor > 1 || modulus == 1)
    ensures OnlyChanged2(old(m[..]), m[..], r, n, t, 4 * n)
  {
    hide *;
    ghost var s0 := m[..];
    OperandBounds(s0, r, t, a, na, p, n);
    ghost var modulus, input := Num(s0, p, n), Num(s0, a, na);
    OddNumber(s0, p, n);
    var at, pr;
    ghost var goal;
    at, pr, goal := StartInverse(m, t, a, na, p, n);
    while true
      invariant State(m[..], at, pr, goal) && AtHome(at, t, n)
      invariant goal.modulus == modulus && goal.input == input
      invariant OnlyChanged(s0, m[..], t, 4 * n)
      invariant FNum(m[..], at) == 0 ==> GNum(m[..], at) > 1 || modulus == 1
      invariant modulus == 1 ==> FNum(m[..], at) == 0
      decreases FNum(m[..], at) + GNum(m[..], at)
    {
      Bounds(m[..], at, pr, goal);
      ghost var before := m[..];
      var zero;
      zero, pr, goal := StripWords(m, at, pr, goal);
      HomeRegions(s0, before, m[..], at, t, n);
      if zero {
        divisor := Failed(m[..], at, pr, goal);
        before := m[..];
        SetWords(m, r, 0, n);
        NumZero(m[..], r, n);
        ResultStored(s0, before, m[..], r, t, n);
        return 0, divisor;
      }
      var odd, i := TrailingZeros(m[at.f]);
      var count := CountInUse(m, at, pr, goal);
      if odd == 1 && m[at.f + 1] == 0 && count == 2 {
        PowerOfTwoReached(m[..], at, pr, goal, i, count);
        ModulusInPlace(s0, m[..], r, t, a, na, p, n, at);
        before := m[..];
        StoreResult(m, r, p, at, pr, goal, i);
        ResultStored(s0, before, m[..], r, t, n);
        return pr.k + i, 0;
      }
      before := m[..];
      ghost var at0 := at;
      at, pr, goal := Advance(m, at, pr, i, odd, count, goal);
      HomeRegions(s0, before, m[..], at0, t, n);
    }
  }

  lemma OperandBounds(s: seq<Word>, r: nat, t: nat, a: nat, na: nat, p: nat, n: nat)
    requires InverseOperands(|s|, r, t, a, na, p, n)
    ensures 2 <= n && n % 2 == 0 && na <= n && r + n <= |s| && t + 4 * n <= |s| && a + na <= |s| && p + n <= |s|
    ensures Disjoint(t, 4 * n, a, na) && Disjoint(t, 4 * n, p, n)
  {
  }

  lemma ResultStored(s: seq<Word>, t: seq<Word>, u: seq<Word>, r: nat, p: nat, n: nat)
    requires OnlyChanged(s, t, p, 4 * n) && OnlyChanged(t, u, r, n)
    ensures OnlyChanged2(s, u, r, n, p, 4 * n)
  {
  }

  lemma ModulusInPlace(s: seq<Word>, u: seq<Word>, r: nat, t: nat, a: nat, na: nat, p: nat, n: nat, at: Pointers)
    requires InverseOperands(|s|, r, t, a, na, p, n) && OnlyChanged(s, u, t, 4 * n) && AtHome(at, t, n)
    ensures Num(u, p, n) == Num(s, p, n)
    ensures at.n == n && Disjoint(r, n, at.b, n) && Disjoint(r, n, p, n)
  {
    NumSame(u, p, s, p, n);
  }

  /** The rest of an iteration that is not the last one. */
  method Advance(m: array<Word>, at: Pointers, pr: Progress, i: nat, odd: Word, ghost count: nat, ghost goal: Goal)
      returns (at': Pointers, pr': Progress, ghost goal': Goal)
    requires State(m[..], at, pr, goal) && at.f < m.Length && at.f + 1 < m.Length && i < WORD_BITS && m[at.f] == odd * Pow2(i) && odd % 2 == 1
    requires count % 2 == 0 && (count == 0 <==> FNum(m[..], at) == 0) && (count > 0 ==> Scale(count - 2) <= FNum(m[..], at))
    requires !(odd == 1 && m[at.f + 1] == 0 && count == 2)
    modifies m
    ensures State(m[..], at', pr', goal') && (at' == at || at' == Pointers(at.c, at.b, at.g, at.f, at.n))
    ensures goal'.modulus == goal.modulus && goal'.input == goal.input
    ensures FNum(m[..], at') == 0 ==> GNum(m[..], at') > 1
    ensures FNum(m[..], at') + GNum(m[..], at') < old(FNum(m[..], at)) + old(GNum(m[..], at))
    ensures OutsideKept(old(m[..]), m[..], at)
  {
    hide *;
    ghost var s0 := m[..];
    Bounds(s0, at, pr, goal);
    pr', goal' := ShiftBits(m, at, pr, i, odd, goal);
    ghost var s1 := m[..];
    NotOne(s0, s1, at, pr, goal, pr', goal', i, odd, count);
    pr' := Shrink(m, at, pr', goal');
    at', pr', goal' := SubtractSmaller(m, at, pr', goal');
    KeptTwice(s0, s1, m[..], at);
  }

  lemma KeptTwice(s: seq<Word>, t: seq<Word>, u: seq<Word>, at: Pointers)
    requires OutsideKept(s, t, at) && OutsideKept(t, u, at)
    ensures OutsideKept(s, u, at)
  {
  }

  lemma HomeRegions(s: seq<Word>, t: seq<Word>, u: seq<Word>, at: Pointers, r: nat, n: nat)
    requires AtHome(at, r, n) && OnlyChanged(s, t, r, 4 * n) && OutsideKept(t, u, at)
    ensures OnlyChanged(s, u, r, 4 * n)
    ensures AtHome(Pointers(at.c, at.b, at.g, at.f, at.n), r, n) && at.n == n
  {
  }

  method StartInverse(m: array<Word>, t: nat, a: nat, na: nat, p: nat, n: nat) returns (at: Pointers, pr: Progress, ghost goal: Goal)
    requires 2 <= n && n % 2 == 0 && na <= n && t + 4 * n <= m.Length && a + na <= m.Length && p + n <= m.Length
    requires Disjoint(t, 4 * n, a, na) && Disjoint(t, 4 * n, p, n)
    requires m[p] % 2 == 1 && Num(m[..], a, na) < Num(m[..], p, n)
    modifies m
    ensures State(m[..], at, pr, goal) && AtHome(at, t, n) && at.n == n
    ensures goal.modulus == old(Num(m[..], p, n)) && goal.input == old(Num(m[..], a, na))
    ensures FNum(m[..], at) == goal.input && GNum(m[..], at) == goal.modulus
    ensures OnlyChanged(old(m[..]), m[..], t, 4 * n)
  {
    hide Num, Scale, Kept;
    ghost var s0 := m[..];
    at := Pointers(t, t + n, t + 2 * n, t + 3 * n, n);
    var fgLen := EvenWordCount(m, p, n);
    SetWords(m, t, 0, 3 * n);
    m[at.b] := 1;
    NumSame(m[..], a, s0, a, na);
    CopyWords(m, at.f, a, na);
    ghost var s1 := m[..];
    CopyWords(m, at.g, p, n);
    StartNumbers(s0, s1, m[..], at, a, na, p, fgLen);
    pr := Progress(2, fgLen, 0, 0);
    goal := Goal(Num(s0, p, n), Num(s0, a, na), 1, 0);
  }

  lemma StartNumbers(s0: seq<Word>, s1: seq<Word>, s2: seq<Word>, at: Pointers, a: nat, na: nat, p: nat, fgLen: nat)
    requires |s0| == |s1| == |s2| && at.Apart(|s0|) && na <= at.n && 2 <= at.n && a + na <= |s0| && p + at.n <= |s0|
    requires s0[p] % 2 == 1 && Num(s0, a, na) < Num(s0, p, at.n)
    requires fgLen % 2 == 0 && Fits(s0, p, fgLen, at.n) && (fgLen == 0 <==> Num(s0, p, at.n) == 0)
    requires s1[at.b] == 1 && (forall i :: at.b + 1 <= i < at.b + at.n ==> s1[i] == 0)
    requires forall i :: at.c <= i < at.c + at.n ==> s1[i] == 0
    requires Num(s1, at.f, na) == Num(s0, a, na) && forall i :: at.f + na <= i < at.f + at.n ==> s1[i] == 0
    requires OnlyChanged(s1, s2, at.g, at.n) && SameWords(s2, at.g, s0, p, at.n)
    ensures State(s2, at, Progress(2, fgLen, 0, 0), Goal(Num(s0, p, at.n), Num(s0, a, na), 1, 0))
    ensures FNum(s2, at) == Num(s0, a, na) && GNum(s2, at) == Num(s0, p, at.n)
  {
    hide Num, Scale, Kept, Fits, OnlyChanged, SameWords;
    StartNums(s0, s1, s2, at, a, na, p);
    StartFits(s1, s2, at);
    StartLengths(s0, s2, at, p, fgLen);
    StartOdd(s0, a, na, p, at.n);
  }

  lemma StartLengths(s0: seq<Word>, s2: seq<Word>, at: Pointers, p: nat, fgLen: nat)
    requires at.f + at.n <= |s2| && at.g + at.n <= |s2| && p + at.n <= |s0| && Fits(s0, p, fgLen, at.n)
    requires Num(s2, at.f, at.n) < Num(s2, at.g, at.n) == Num(s0, p, at.n)
    ensures Fits(s2, at.f, fgLen, at.n) && Fits(s2, at.g, fgLen, at.n) && fgLen <= at.n && Num(s0, p, at.n) < Scale(at.n)
  {
    hide Num, Scale;
    NumBound(s0, p, at.n);
    FitsNum(s0, p, fgLen, at.n);
    NumBound(s0, p, fgLen);
    SmallFits(s2, at.f, fgLen, at.n);
    SmallFits(s2, at.g, fgLen, at.n);
  }

  lemma StartOdd(s: seq<Word>, a: nat, na: nat, p: nat, n: nat)
    requires a + na <= |s| && p + n <= |s| && 0 < n && s[p] % 2 == 1
    ensures Kept(1, 0, Num(s, a, na), Num(s, p, n), Num(s, p, n), Num(s, a, na), 0, 0, 1, 0)
  {
    hide Num, Kept;
    OddNumber(s, p, n);
    StartKept(Num(s, a, na), Num(s, p, n));
  }

  lemma StartNums(s0: seq<Word>, s1: seq<Word>, s2: seq<Word>, at: Pointers, a: nat, na: nat, p: nat)
    requires |s0| == |s1| == |s2| && at.Apart(|s0|) && na <= at.n && 2 <= at.n && a + na <= |s0| && p + at.n <= |s0|
    requires s1[at.b] == 1 && (forall i :: at.b + 1 <= i < at.b + at.n ==> s1[i] == 0)
    requires forall i :: at.c <= i < at.c + at.n ==> s1[i] == 0
    requires Num(s1, at.f, na) == Num(s0, a, na) && forall i :: at.f + na <= i < at.f + at.n ==> s1[i] == 0
    requires OnlyChanged(s1, s2, at.g, at.n) && SameWords(s2, at.g, s0, p, at.n)
    ensures Num(s2, at.b, at.n) == 1 && Num(s2, at.c, at.n) == 0
    ensures Num(s2, at.f, at.n) == Num(s0, a, na) && Num(s2, at.g, at.n) == Num(s0, p, at.n)
  {
    ZerosFit(s1, at.f, na, at.n);
    hide Num, Scale, Fits;
    OneNumber(s1, at.b, at.n);
    NumZero(s1, at.c, at.n);
    FitsNum(s1, at.f, na, at.n);
    NumSame(s2, at.g, s0, p, at.n);
    NumsKept(s1, s2, at.g, at.n);
  }

  lemma StartFits(s1: seq<Word>, s2: seq<Word>, at: Pointers)
    requires |s1| == |s2| && at.Apart(|s1|) && 2 <= at.n
    requires (forall i :: at.b + 1 <= i < at.b + at.n ==> s1[i] == 0) && forall i :: at.c <= i < at.c + at.n ==> s1[i] == 0
    requires OnlyChanged(s1, s2, at.g, at.n)
    ensures Fits(s2, at.b, 2, at.n) && Fits(s2, at.c, 2, at.n)
  {
    hide Num, Scale;
  }

  lemma OddNumber(s: seq<Word>, p: nat, n: nat)
    requires 0 < n && p + n <= |s|
    ensures Num(s, p, n) % 2 == s[p] % 2
  {
    hide Num, Pow2;
    FirstWord(s, p, n);
    BaseAtLeast256();
    EvenAdded(s[p], BASE, Num(s, p + 1, n - 1));
  }

  lemma EvenAdded(w: nat, base: nat, rest: nat)
    requires base % 2 == 0
    ensures (w + base * rest) % 2 == w % 2
  {
    var h := base / 2;
    var e := h * rest;
    MulEqual(base, rest, 2 * h, rest);
    MulAssoc(2, h, rest);
    SameParity(w, e);
  }

  lemma SameParity(w: int, e: int)
    ensures (w + 2 * e) % 2 == w % 2
  {
  }

  lemma Failed(m: seq<Word>, at: Pointers, pr: Progress, goal: Goal) returns (divisor: nat)
    requires State(m, at, pr, goal) && FNum(m, at) == 0
    ensures divisor == GNum(m, at) > 0 && goal.input % divisor == 0 && goal.modulus % divisor == 0
  {
    divisor := GNum(m, at);
    VanishedKept(Num(m, at.b, at.n), Num(m, at.c, at.n), divisor, goal.modulus, goal.input, pr.k, pr.s, goal.x, goal.y);
  }

  /** EvenWordCount(f, fgLen). */
  method CountInUse(m: array<Word>, at: Pointers, pr: Progress, ghost goal: Goal) returns (count: nat)
    requires State(m[..], at, pr, goal)
    ensures at.Apart(m.Length) && 2 <= pr.fgLen <= at.n && count <= pr.fgLen && count % 2 == 0 && Fits(m[..], at.f, count, at.n)
    ensures count == 0 <==> FNum(m[..], at) == 0
    ensures count > 0 ==> Scale(count - 2) <= FNum(m[..], at)
  {
    FitsNum(m[..], at.f, pr.fgLen, at.n);
    count := EvenWordCount(m, at.f, pr.fgLen);
  }

  lemma PowerOfTwoReached(m: seq<Word>, at: Pointers, pr: Progress, goal: Goal, i: nat, count: nat)
    requires State(m, at, pr, goal) && m[at.f] == 1 * Pow2(i) && m[at.f + 1] == 0 && count == 2 && Fits(m, at.f, count, at.n)
    ensures FNum(m, at) == Pow2(i)
  {
    FitsNum(m, at.f, 2, at.n);
    NumShort(m, at.f);
    NumNext(m, at.f, 1);
  }

  /** If the loop did not stop, halving f left more than 1. */
  lemma NotOne(s: seq<Word>, t: seq<Word>, at: Pointers, pr: Progress, goal: Goal, pr': Progress, goal': Goal, i: nat, odd: nat, count: nat)
    requires State(s, at, pr, goal) && State(t, at, pr', goal') && i < WORD_BITS && s[at.f] == odd * Pow2(i)
    requires count % 2 == 0 && (count == 0 <==> FNum(s, at) == 0) && (count > 0 ==> Scale(count - 2) <= FNum(s, at))
    requires !(odd == 1 && s[at.f + 1] == 0 && count == 2)
    requires FNum(s, at) == FNum(t, at) * Pow2(i) && FNum(t, at) % 2 == 1
    ensures 1 < FNum(t, at) <= FNum(s, at) && 0 < GNum(t, at)
  {
    hide Num, Scale;
    ModulusSideOdd(t, at, pr', goal');
    var f := FNum(s, at);
    MulMonotone(1, Pow2(i), FNum(t, at));
    MulComm(Pow2(i), FNum(t, at));
    if FNum(t, at) == 1 {
      Pow2Monotone(i, WORD_BITS - 1);
      assert Pow2(WORD_BITS - 1) < BASE;
      FirstWord(s, at.f, at.n);
      NothingAbove(s[at.f], Num(s, at.f + 1, at.n - 1), f, BASE);
      NumZero(s, at.f + 1, at.n - 1);
      OnlyOne(odd, Pow2(i));
      NumShort(s, at.f);
      ScaleMonotone(1, count - 2);
      assert false;
    }
  }

  lemma NothingAbove(low: nat, high: nat, x: nat, base: nat)
    requires x == low + base * high && x < base
    ensures high == 0 && low == x
  {
    if high != 0 { MulMonotone(1, high, base); MulComm(high, base); }
  }

  lemma OnlyOne(odd: nat, p: nat)
    requires odd * p == p && 0 < p
    ensures odd == 1
  {
    if odd == 0 { MulEqual(odd, p, 0, p); } else if 2 <= odd { MulMonotone(2, odd, p); }
  }

  method StoreResult(m: array<Word>, r: nat, p: nat, at: Pointers, pr: Progress, ghost goal: Goal, i: nat)
    requires State(m[..], at, pr, goal) && 2 <= at.n && r + at.n <= m.Length && p + at.n <= m.Length
    requires Disjoint(r, at.n, at.b, at.n) && Disjoint(r, at.n, p, at.n)
    requires FNum(m[..], at) == Pow2(i) && Num(m[..], p, at.n) == goal.modulus && goal.input < goal.modulus && goal.modulus % 2 == 1 && goal.modulus > 1
    modifies m
    ensures 0 < Num(m[..], r, at.n) < goal.modulus
    ensures Congruent(Num(m[..], r, at.n) * goal.input, Pow2(pr.k + i), goal.modulus)
    ensures OnlyChanged(old(m[..]), m[..], r, at.n)
  {
    hide Num, Scale, Kept;
    ghost var s := m[..];
    ghost var b := Num(s, at.b, at.n);
    CofactorsBounded(b, Num(s, at.c, at.n), FNum(s, at), GNum(s, at), goal.modulus, goal.input, pr.k, pr.s, goal.x, goal.y);
    FinishedKept(b, Num(s, at.c, at.n), FNum(s, at), GNum(s, at), goal.modulus, goal.input, pr.k, pr.s, goal.x, goal.y, i);
    if pr.s % 2 == 0 {
      CopyWords(m, r, at.b, at.n);
    } else {
      var borrow := Subtract(m, r, p, at.b, at.n);
      NumBound(m[..], r, at.n);
      NumBound(s, p, at.n);
    }
    ResultInRange(Num(m[..], r, at.n), goal.input, goal.modulus, pr.k + i);
  }

  lemma ResultInRange(x: nat, input: nat, modulus: nat, k: nat)
    requires x <= modulus && input < modulus && modulus % 2 == 1 && Congruent(x * input, Pow2(k), modulus)
    requires modulus > 1
    ensures 0 < x < modulus
  {
    if x == 0 || x == modulus {
      FromWitness(x * input, 0, modulus, if x == 0 then 0 else input) by { MulComm(x, input); MulEqual(x, input, if x == 0 then 0 else modulus, input); }
      Symmetric(x * input, 0, modulus);
      Transitive(0, x * input, Pow2(k), modulus);
      Symmetric(0, Pow2(k), modulus);
      OddDividesPowerOfTwo(modulus, k);
    }
  }

  lemma {:induction false} OddDividesPowerOfTwo(p: nat, k: nat)
    requires p % 2 == 1 && Congruent(Pow2(k), 0, p)
    ensures p == 1
  {
    var j := Witness(Pow2(k), 0, p);
    if k == 0 {
      if 2 <= p {
        if j <= 0 { MulMonotone(j, 0, p); } else { MulMonotone(1, j, p); }
      }
    } else {
      HalfMultiple(Pow2(k - 1), j, p);
      FromWitness(Pow2(k - 1), 0, p, j / 2);
      OddDividesPowerOfTwo(p, k - 1);
    }
  }

}
