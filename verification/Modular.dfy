/** Congruence of integers, with the multiple of the modulus made explicit where a proof needs it. */
module Modular {
  import opened Integers

  ghost predicate ApartBy(x: int, y: int, m: int, k: int) {
    x == y + k * m
  }

  /** x and y differ by a multiple of m. */
  ghost predicate Congruent(x: int, y: int, m: nat) {
    exists k :: ApartBy(x, y, m, k)
  }

  lemma Witness(x: int, y: int, m: nat) returns (k: int)
    requires Congruent(x, y, m)
    ensures x == y + k * m
  {
    k :| ApartBy(x, y, m, k);
  }

  lemma FromWitness(x: int, y: int, m: nat, k: int)
    requires x == y + k * m
    ensures Congruent(x, y, m)
  {
    assert ApartBy(x, y, m, k);
  }

  lemma Mod(x: int, m: nat)
    requires 0 < m
    ensures Congruent(x % m, x, m) && 0 <= x % m < m
  {
    NegMul(x / m, m);
    FromWitness(x % m, x, m, -(x / m));
  }

  lemma NegMul(k: int, m: int)
    ensures (-k) * m == -(k * m)
  {
  }

  lemma Symmetric(x: int, y: int, m: nat)
    requires Congruent(x, y, m)
    ensures Congruent(y, x, m)
  {
    var k := Witness(x, y, m);
    NegMul(k, m);
    FromWitness(y, x, m, -k);
  }

  lemma Transitive(x: int, y: int, z: int, m: nat)
    requires Congruent(x, y, m) && Congruent(y, z, m)
    ensures Congruent(x, z, m)
  {
    var k := Witness(x, y, m);
    var l := Witness(y, z, m);
    AddMul(k, l, m);
    FromWitness(x, z, m, k + l);
  }

  lemma Sum(x: int, y: int, x': int, y': int, m: nat)
    requires Congruent(x, y, m) && Congruent(x', y', m)
    ensures Congruent(x + x', y + y', m)
  {
    var k := Witness(x, y, m);
    var l := Witness(x', y', m);
    AddMul(k, l, m);
    FromWitness(x + x', y + y', m, k + l);
  }

  lemma Times(x: int, y: int, z: int, m: nat)
    requires Congruent(x, y, m)
    ensures Congruent(x * z, y * z, m)
  {
    var k := Witness(x, y, m);
    DistributeTimes(y, k, m, z);
    FromWitness(x * z, y * z, m, k * z);
  }

  lemma DistributeTimes(y: int, k: int, m: int, z: int)
    ensures (y + k * m) * z == y * z + k * z * m
  {
  }

  /** A congruence between two remainders is an equation. */
  lemma Unique(x: int, y: int, m: nat)
    requires Congruent(x, y, m) && 0 <= x < m && 0 <= y < m
    ensures x == y
  {
    var k := Witness(x, y, m);
    if k < 0 { MulMonotone(k, -1, m); } else if 0 < k { MulMonotone(1, k, m); }
  }

  lemma SameRemainder(x: int, y: int, m: nat)
    requires 0 < m
    ensures Congruent(x, y, m) <==> x % m == y % m
  {
    Mod(x, m);
    Mod(y, m);
    if Congruent(x, y, m) {
      Transitive(x % m, x, y, m);
      Symmetric(y % m, y, m);
      Transitive(x % m, y, y % m, m);
      Unique(x % m, y % m, m);
    }
    if x % m == y % m {
      Symmetric(x % m, x, m);
      Transitive(x, x % m, y, m);
    }
  }

  /** Half of an even multiple of an odd number is a multiple. */
  lemma HalfMultiple(d: int, j: int, p: nat)
    requires p % 2 == 1 && 2 * d == j * p
    ensures d == j / 2 * p
  {
    HalfStep(d, j, j / 2, p, p / 2);
  }

  lemma HalfStep(d: int, j: int, i: int, p: int, h: int)
    requires p == 2 * h + 1 && (j == 2 * i || j == 2 * i + 1) && 2 * d == j * p
    ensures d == i * p
  {
    MulAssoc(2, i, p);
    AddMul(2 * i, j - 2 * i, p);
  }
}
