/** Integer arithmetic shared by all modules: powers of two, and facts about products and quotients. */
module Integers {
  function Pow2(n: nat): (p: nat)
    ensures p > 0
  {
    if n == 0 then 1 else 2 * Pow2(n - 1)
  }

  lemma Pow2Next(a: nat)
    ensures Pow2(0) == 1 && Pow2(a + 1) == 2 * Pow2(a)
  {
  }

  lemma {:induction false} Pow2Add(i: nat, j: nat)
    ensures Pow2(i + j) == Pow2(i) * Pow2(j)
  {
    hide *;
    Pow2Next(0);
    if i != 0 {
      Pow2Add(i - 1, j);
      Pow2Next(i - 1);
      Pow2Next(i - 1 + j);
      MulAssoc(2, Pow2(i - 1), Pow2(j));
    }
  }

  lemma {:induction false} Pow2Monotone(i: nat, j: nat)
    requires i <= j
    ensures Pow2(i) <= Pow2(j)
  {
    if i < j { Pow2Monotone(i, j - 1); }
  }

  // ---- Facts the solver needs to be told ----

  lemma NatProduct(x: nat, y: nat)
    ensures 0 <= x * y
  {
  }

  lemma MulAssoc(x: int, y: int, z: int)
    ensures x * y * z == x * (y * z)
  {
  }

  lemma MulComm(x: int, y: int)
    ensures x * y == y * x
  {
  }

  lemma MulEqual(x: int, y: int, x': int, y': int)
    requires x == x' && y == y'
    ensures x * y == x' * y'
  {
  }

  lemma MulPositive(x: int, y: int)
    requires 0 < x && 0 < y
    ensures 0 < x * y
  {
  }

  lemma MulMonotone(x: int, y: int, z: int)
    requires x <= y && 0 <= z
    ensures x * z <= y * z
  {
  }

  lemma ProductBelow(x: nat, y: nat, p: nat, q: nat)
    requires x < p && y < q
    ensures 0 <= x * y < p * q
  {
    MulMonotone(x, p - 1, y);
    MulMonotone(y, q - 1, p - 1);
    MulComm(p - 1, y);
    MulComm(p - 1, q - 1);
  }

  /** What stays below the scale carries nothing into it. */
  lemma NoCarry(x: nat, carry: nat, scale: nat)
    requires x + carry * scale < scale
    ensures carry == 0
  {
    if 1 <= carry { MulMonotone(1, carry, scale); }
  }

  lemma Recompose(x: int, d: int)
    requires 0 < d
    ensures x == x / d * d + x % d && 0 <= x % d
  {
  }

  lemma DivModUnique(x: int, d: int, q: int, r: int)
    requires 0 < d && 0 <= r < d && x == q * d + r
    ensures x / d == q && x % d == r
  {
    var q', r' := x / d, x % d;
    assert x == q' * d + r';
    if q' < q {
      MulMonotone(q' + 1, q, d);
    } else if q < q' {
      MulMonotone(q + 1, q', d);
    }
  }

  /** As MulMonotone, with either order of the factors. */
  lemma Monotone(x: int, y: int, z: int)
    requires x <= y && 0 <= z
    ensures x * z <= y * z && x * z == z * x && y * z == z * y
  {
  }

  lemma AddMul(k: int, l: int, m: int)
    ensures (k + l) * m == k * m + l * m
  {
  }

  lemma DivNat(x: nat, d: nat)
    requires 0 < d
    ensures 0 <= x / d <= x
  {
    var q, r := x / d, x % d;
    assert x == q * d + r;
    if q < 0 {
      MulMonotone(q, -1, d);
    } else {
      MulMonotone(1, d, q);
    }
  }

  lemma QuotientSplit(r: nat, d: nat)
    requires 0 < d
    ensures 0 <= r / d && 0 <= r % d < d && r == r / d * d + r % d
  {
    var q := r / d;
    assert r == q * d + r % d;
    if q < 0 { Monotone(q, -1, d); }
  }

  lemma QuotientOfQuotient(x: nat, a: nat, p: nat)
    requires 0 < a && 0 < p
    ensures 0 < a * p && 0 <= x / a / p && x / a / p == x / (a * p)
  {
    Monotone(1, a, p);
    var q := x / a;
    assert x == q * a + x % a;
    var t := q / p;
    assert q == t * p + q % p;
    if q < 0 { Monotone(q, -1, a); }
    if t < 0 { Monotone(t, -1, p); }
    assert (t * p + q % p) * a == t * (a * p) + q % p * a;
    Monotone(q % p + 1, p, a);
    assert (q % p + 1) * a == q % p * a + a && p * a == a * p;
    Monotone(0, q % p, a);
    DivModUnique(x, a * p, t, q % p * a + x % a);
  }

  lemma MultipleNext(n: nat, block: nat)
    requires 0 < block && n % block == 0
    ensures (n + block) % block == 0
  {
    var q := n / block;
    assert n == q * block;
    Monotone(q, q, block);
    assert (q + 1) * block == q * block + block;
    DivModUnique(n + block, block, q + 1, 0);
  }

  // ---- Bits ----

  /** Shifts and masks of the source, on numbers. */
  function Shl(x: nat, t: nat): nat {
    NatProduct(x, Pow2(t));
    x * Pow2(t)
  }

  function Shr(x: nat, t: nat): nat {
    DivNat(x, Pow2(t));
    x / Pow2(t)
  }

  function LowBits(x: nat, t: nat): (y: nat)
    ensures y < Pow2(t)
  {
    x % Pow2(t)
  }

  lemma ShlIs(x: nat, t: nat)
    ensures Shl(x, t) == x * Pow2(t)
  {
  }

  lemma ShrIs(x: nat, t: nat)
    ensures Shr(x, t) == x / Pow2(t)
  {
  }

  lemma LowBitsIs(x: nat, t: nat)
    ensures LowBits(x, t) == x % Pow2(t) < Pow2(t)
  {
  }

  /** Bitwise or. */
  function BitOr(x: nat, y: nat): nat {
    if x == 0 && y == 0 then 0
    else (if x % 2 == 1 || y % 2 == 1 then 1 else 0) + 2 * BitOr(x / 2, y / 2)
  }

  /** Without common bits, or is addition. */
  lemma {:induction false} BitOrDisjoint(x: nat, y: nat, k: nat)
    requires y < Pow2(k)
    ensures BitOr(x * Pow2(k), y) == x * Pow2(k) + y
  {
    if k == 0 {
      BitOrZero(x);
    } else {
      var z := x * Pow2(k - 1);
      assert x * Pow2(k) == 2 * z by { MulAssoc(2, Pow2(k - 1), x); }
      BitOrDisjoint(x, y / 2, k - 1);
      BitOrEven(z, y);
    }
  }

  lemma BitOrEven(z: nat, y: nat)
    ensures BitOr(2 * z, y) == y % 2 + 2 * BitOr(z, y / 2)
  {
  }

  lemma {:induction false} BitOrZero(x: nat)
    ensures BitOr(x, 0) == x
  {
    if x != 0 { BitOrZero(x / 2); }
  }

  lemma {:induction false} BitOrComm(x: nat, y: nat)
    ensures BitOr(x, y) == BitOr(y, x)
    decreases x + y
  {
    if x != 0 || y != 0 { BitOrComm(x / 2, y / 2); }
  }

  lemma {:induction false} BitOrBelow(x: nat, y: nat, n: nat)
    requires x < Pow2(n) && y < Pow2(n)
    ensures BitOr(x, y) < Pow2(n)
  {
    if n > 0 { BitOrBelow(x / 2, y / 2, n - 1); }
  }

  lemma BitOrLow(x: nat, y: nat)
    ensures BitOr(x, y) % 2 == if x % 2 == 1 || y % 2 == 1 then 1 else 0
  {
    LowBit(if x % 2 == 1 || y % 2 == 1 then 1 else 0, BitOr(x / 2, y / 2));
  }

  lemma {:induction false} BitOrAt(x: nat, y: nat, i: nat)
    ensures Shr(BitOr(x, y), i) % 2 == if Shr(x, i) % 2 == 1 || Shr(y, i) % 2 == 1 then 1 else 0
  {
    if i == 0 {
      BitOrLow(x, y);
    } else {
      LowBit(if x % 2 == 1 || y % 2 == 1 then 1 else 0, BitOr(x / 2, y / 2));
      assert BitOr(x, y) / 2 == BitOr(x / 2, y / 2);
      hide BitOr;
      ShrNext(BitOr(x, y), i);
      ShrNext(x, i);
      ShrNext(y, i);
      BitOrAt(x / 2, y / 2, i - 1);
    }
  }

  lemma ShrNext(x: nat, i: nat)
    requires 0 < i
    ensures Shr(x, i) == Shr(x / 2, i - 1)
  {
    hide Pow2;
    Pow2Next(i - 1);
    QuotientOfQuotient(x, 2, Pow2(i - 1));
  }

  lemma LowBit(bit: nat, rest: nat)
    requires bit < 2
    ensures (bit + 2 * rest) % 2 == bit && (bit + 2 * rest) / 2 == rest
  {
  }
}
