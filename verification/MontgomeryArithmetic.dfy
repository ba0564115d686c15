/** MontgomeryRepresentation: arithmetic on residues kept multiplied by BASE^n. */
module MontgomeryArithmetic {
  import opened Integers
  import opened Words
  import opened WordArithmetic
  import opened Karatsuba
  import opened Squaring
  import opened AsymmetricProducts
  import opened Modular
  import opened Montgomery
  import opened AlmostInverses
  import opened ModularInverse

  // ---- What a stored residue stands for ----

  /** v is the Montgomery representation of x modulo p. */
  ghost predicate Represents(v: int, x: int, p: nat, n: nat) {
    0 <= v < p && Congruent(v, x * Scale(n), p)
  }

  lemma ConvertInRepresents(x: int, p: nat, n: nat)
    requires 0 < p
    ensures Represents(ConvertIn(x, p, n), x, p, n)
  {
    ScaleIsPow2(n);
    MulComm(n, WORD_BITS);
    Mod(x * Scale(n), p);
  }

  /** Reducing the product of two representations represents the product. */
  lemma ReducedProduct(v: int, w: int, r: int, x: int, y: int, p: nat, n: nat, u: int)
    requires Represents(v, x, p, n) && Represents(w, y, p, n) && Reduced(r, v * w, p, n)
    requires u * p % Scale(n) == 1
    ensures Represents(r, x * y, p, n)
  {
    var s := Scale(n);
    Times(v, x * s, w, p);
    Times(w, y * s, x * s, p);
    MulComm(w, x * s);
    Transitive(v * w, x * s * w, y * s * (x * s), p);
    Transitive(r * s, v * w, y * s * (x * s), p);
    Regroup(x, y, s);
    CancelScale(r, x * y * s, p, s, u);
  }

  /** Reducing a representation gives back the residue. */
  lemma ReducedRepresentation(v: int, r: int, x: int, p: nat, n: nat, u: int)
    requires Represents(v, x, p, n) && Reduced(r, v, p, n)
    requires u * p % Scale(n) == 1
    ensures r == x % p
  {
    Transitive(r * Scale(n), v, x * Scale(n), p);
    CancelScale(r, x, p, Scale(n), u);
    RemainderIs(r, x, p);
  }

  /** r * v is the square of the scale, or r is 0 where v has no inverse. */
  ghost predicate ScaledInverse(r: int, v: int, p: nat, n: nat) {
    0 <= r < p && if HaveCommonDivisor(v, p) then r == 0 else Congruent(r * v, Scale(n) * Scale(n), p)
  }

  /** The scaled inverse of a representation represents the inverse. */
  lemma ScaledInverseRepresents(r: int, v: int, x: int, y: int, p: nat, n: nat, u: int)
    requires Represents(v, x, p, n) && ScaledInverse(r, v, p, n) && !HaveCommonDivisor(v, p)
    requires Congruent(x * y, 1, p) && u * p % Scale(n) == 1
    ensures Represents(r, y, p, n)
  {
    hide Scale, Congruent, HaveCommonDivisor;
    var s := Scale(n);
    Times(v, x * s, r, p);
    RegroupInverse(r, v, x, y, s);
    Symmetric(v * r, x * s * r, p);
    Transitive(r * x * s, v * r, s * s, p);
    CancelScale(r * x, s, p, s, u);
    Times(r * x, s, y, p);
    Times(x * y, 1, r, p);
    Symmetric(x * y * r, 1 * r, p);
    Transitive(r, r * x * y, s * y, p);
  }

  lemma RegroupInverse(r: int, v: int, x: int, y: int, s: int)
    ensures v * r == r * v && x * s * r == r * x * s && x * y * r == r * x * y && s * y == y * s
  {
    assert x * s * r == r * (x * s);
    assert x * y * r == r * (x * y);
  }

  /** Having a common divisor with the modulus survives multiplication, and congruence. */
  lemma ScaledDivisor(x: int, s: int, y: int, p: nat)
    requires HaveCommonDivisor(x, p) && Congruent(y, x * s, p)
    ensures HaveCommonDivisor(y, p)
  {
    hide Congruent;
    var d: nat :| d > 1 && Divides(d, x) && Divides(d, p);
    DividesMultiple(d, x, s);
    assert Divides(d, x * s) && Divides(d, p);
    var k := Witness(y, x * s, p);
    NegMul(k, p);
    SharedDivisor(x * s, y, p, -k);
  }

  lemma RepresentationDivisors(v: int, x: int, p: nat, n: nat)
    requires Represents(v, x, p, n) && p % 2 == 1
    ensures HaveCommonDivisor(v, p) <==> HaveCommonDivisor(x, p)
  {
    hide Congruent, HaveCommonDivisor, Scale, Pow2;
    var s := Scale(n);
    ScaleIsPow2(n);
    var h := HalfPower(p, n * WORD_BITS);
    Times(v, x * s, h, p);
    Times(h * s, 1, x, p);
    RegroupInverse(h, s, x, h, s);
    ScaleBack(x, s, h);
    Transitive(v * h, h * s * x, 1 * x, p);
    Symmetric(v * h, x, p);
    if HaveCommonDivisor(x, p) { ScaledDivisor(x, s, v, p); }
    if HaveCommonDivisor(v, p) { ScaledDivisor(v, h, x, p); }
  }

  lemma ScaleBack(x: int, s: int, h: int)
    ensures x * s * h == h * s * x && 1 * x == x
  {
    assert x * s * h == x * (s * h);
  }

  /** Converting in, inverting in the ring and converting out is inversion modulo the modulus. */
  lemma ReciprocalOut(r: int, v: int, out: int, x: int, p: nat, n: nat, u: int)
    requires p % 2 == 1 && Represents(v, x, p, n) && ScaledInverse(r, v, p, n) && Reduced(out, r, p, n)
    requires u * p % Scale(n) == 1
    ensures 0 <= out < p && if HaveCommonDivisor(x, p) then out == 0 else Congruent(out * x, 1, p)
  {
    hide Scale, Congruent, HaveCommonDivisor;
    var s := Scale(n);
    RepresentationDivisors(v, x, p, n);
    if HaveCommonDivisor(v, p) {
      MulEqual(0, s, 0, s);
      CancelScale(out, 0, p, s, u);
      Unique(out, 0, p);
    } else {
      Times(v, x * s, r, p);
      RegroupInverse(r, v, x, x, s);
      Symmetric(v * r, x * s * r, p);
      Transitive(r * x * s, r * v, s * s, p);
      CancelScale(r * x, s, p, s, u);
      Times(out * s, r, x, p);
      ScaleBack(x, s, out);
      ScaleBack(s, out, x);
      Transitive(out * x * s, r * x, s, p);
      CancelScale(out * x, 1, p, s, u);
    }
  }

  // ---- From the almost inverse to the scaled inverse ----

  lemma CompletedInverse(v: int, w: int, x: int, k: nat, divisor: nat, r: int, p: nat, n: nat)
    requires p % 2 == 1 && 0 <= w < p && Congruent(w * Scale(n), v, p) && 0 <= r < p
    requires if divisor == 0 then 0 < x < p && Congruent(x * w, Pow2(k), p)
             else x == 0 && k == 0 && w % divisor == 0 && p % divisor == 0 && (divisor > 1 || p == 1)
    requires if k > n * WORD_BITS then Congruent(r * Pow2(k - n * WORD_BITS), x, p) else Congruent(r, x * Pow2(n * WORD_BITS - k), p)
    ensures ScaledInverse(r, v, p, n)
  {
    hide Scale, Congruent, HaveCommonDivisor, Divides, Pow2;
    ScaleIsPow2(n);
    if divisor == 0 {
      PowersMeet(w, x, k, n * WORD_BITS, r, p);
      SquareOfScale(r, v, w, p, Scale(n));
      ScaledInverseExcludesDivisor(r, v, p, n);
    } else {
      NoScaledInverse(v, w, x, divisor, r, p, n);
    }
  }

  lemma NoScaledInverse(v: int, w: int, x: int, divisor: nat, r: int, p: nat, n: nat)
    requires 0 <= r < p && Congruent(w * Scale(n), v, p) && divisor > 0
    requires x == 0 && w % divisor == 0 && p % divisor == 0 && (divisor > 1 || p == 1)
    requires Congruent(r, x * Pow2(n * WORD_BITS), p)
    ensures ScaledInverse(r, v, p, n)
  {
    hide Scale, Pow2;
    MulEqual(x, Pow2(n * WORD_BITS), 0, Pow2(n * WORD_BITS));
    Unique(r, 0, p);
    if p == 1 {
      FromWitness(0 * v, Scale(n) * Scale(n), 1, -(Scale(n) * Scale(n)));
    } else {
      DividesMultiple(divisor, w, Scale(n));
      assert Divides(divisor, w * Scale(n)) && Divides(divisor, p);
      var k := Witness(w * Scale(n), v, p);
      SharedDivisor(w * Scale(n), v, p, k);
    }
  }

  lemma DividesMultiple(d: nat, x: int, y: int)
    requires d > 0 && Divides(d, x)
    ensures Divides(d, x * y)
  {
    var q := x / d;
    assert x == q * d;
    assert q * d * y == q * y * d;
    DivModUnique(x * y, d, q * y, 0);
  }

  /** Whatever the exponent the almost inverse stopped at, the power that is left is the wanted one. */
  lemma PowersMeet(w: int, x: int, k: nat, goal: nat, r: int, p: nat)
    requires p % 2 == 1 && Congruent(x * w, Pow2(k), p)
    requires if k > goal then Congruent(r * Pow2(k - goal), x, p) else Congruent(r, x * Pow2(goal - k), p)
    ensures Congruent(r * w, Pow2(goal), p)
  {
    hide Pow2, Congruent;
    if k > goal {
      var t := Pow2(k - goal);
      Times(r * t, x, w, p);
      Transitive(r * t * w, x * w, Pow2(k), p);
      Pow2Add(goal, k - goal);
      Swap(r, t, w);
      CancelPow2(r * w, Pow2(goal), k - goal, p);
    } else {
      var t := Pow2(goal - k);
      Times(r, x * t, w, p);
      Times(x * w, Pow2(k), t, p);
      Swap(x, t, w);
      Transitive(r * w, x * w * t, Pow2(k) * t, p);
      Pow2Add(k, goal - k);
    }
  }

  lemma Swap(x: int, y: int, z: int)
    ensures x * y * z == x * z * y
  {
    assert x * (y * z) == x * (z * y);
  }

  lemma SquareOfScale(r: int, v: int, w: int, p: nat, s: int)
    requires Congruent(w * s, v, p) && Congruent(r * w, s, p)
    ensures Congruent(r * v, s * s, p)
  {
    hide Congruent;
    Times(r * w, s, s, p);
    Times(w * s, v, r, p);
    Symmetric(w * s * r, v * r, p);
    assert w * s * r == r * w * s;
    Transitive(v * r, r * w * s, s * s, p);
    MulComm(v, r);
  }

  lemma ScaledInverseExcludesDivisor(r: int, v: int, p: nat, n: nat)
    requires p % 2 == 1 && Congruent(r * v, Scale(n) * Scale(n), p)
    ensures !HaveCommonDivisor(v, p)
  {
    hide Scale, Congruent, HaveCommonDivisor, Divides, Pow2;
    if HaveCommonDivisor(v, p) {
      var h := HalfPower(p, n * WORD_BITS);
      ScaleIsPow2(n);
      var s := Scale(n);
      Times(r * v, s * s, h * h, p);
      Times(h * s, 1, h * s, p);
      Transitive(h * s * (h * s), 1 * (h * s), 1, p);
      assert s * s * (h * h) == h * s * (h * s);
      Transitive(r * v * (h * h), h * s * (h * s), 1, p);
      assert r * v * (h * h) == r * (h * h) * v;
      InverseExcludesDivisor(r * (h * h), v, p);
    }
  }

  /** Modulo an odd number every power of two has an inverse. */
  lemma {:induction false} HalfPower(p: nat, k: nat) returns (h: int)
    requires p % 2 == 1
    ensures Congruent(h * Pow2(k), 1, p)
  {
    if k == 0 {
      h := 1;
      FromWitness(1 * Pow2(0), 1, p, 0);
    } else {
      var g := HalfPower(p, k - 1);
      var half := (p + 1) / 2;
      h := g * half;
      FromWitness(half * 2, 1, p, 1);
      Times(g * Pow2(k - 1), 1, half * 2, p);
      assert g * Pow2(k - 1) * (half * 2) == g * half * (2 * Pow2(k - 1));
      Transitive(h * Pow2(k), 1 * (half * 2), 1, p);
    }
  }

  // ---- Operand lengths ----

  /** The rounded lengths the product routine is given: one is an even multiple of the other. */
  lemma {:induction false} PowersDivide(na: nat, nb: nat)
    requires PowerOfTwo(na) && PowerOfTwo(nb) && na < nb
    ensures nb % (2 * na) == 0
  {
    if na == 1 {
    } else {
      PowersDivide(na / 2, nb / 2);
      var q := nb / 2 / na;
      assert na == 2 * (na / 2) && nb == 2 * (nb / 2);
      assert nb / 2 == q * na;
      assert nb == q * (2 * na);
      DivModUnique(nb, 2 * na, q, 0);
    }
  }

  /** Extending with zero words keeps the number. */
  lemma ZeroExtended(s: seq<Word>, p: nat, n: nat, k: nat)
    requires p + n + k <= |s| && forall i :: p + n <= i < p + n + k ==> s[i] == 0
    ensures Num(s, p, n + k) == Num(s, p, n)
  {
    hide Num, Scale;
    NumSplit(s, p, n, k);
    NumZero(s, p + n, k);
    MulEqual(Scale(n), Num(s, p + n, k), Scale(n), 0);
  }

  lemma ReducibleProduct(x: nat, y: nat, p: nat, scale: nat)
    requires (x < p && y < scale) || (x < scale && y < p)
    ensures x * y < p * scale
  {
    if x < p && y < scale { ProductBelow(x, y, p, scale); } else { ProductBelow(x, y, scale, p); MulComm(p, scale); }
  }

  lemma ReducibleOperand(x: nat, p: nat, scale: nat)
    requires x < scale && 0 < p
    ensures x < p * scale
  {
    MulMonotone(1, p, scale);
  }

  /** An a.reg of na words that the ring can be handed: not inside its workspace, possibly its own result. */
  ghost predicate Operand(size: nat, workspace: nat, n: nat, a: nat, na: nat) {
    2 <= na <= n && PowerOfTwo(na) && a + na <= size && Disjoint(workspace, 5 * n, a, na)
  }

  ghost predicate Layout(size: nat, modulus: nat, u: nat, result: nat, workspace: nat, n: nat) {
    n >= 2 && PowerOfTwo(n) &&
    modulus + n <= size && u + n <= size && result + n <= size && workspace + 5 * n <= size &&
    Disjoint(modulus, n, u, n) && Disjoint(modulus, n, result, n) && Disjoint(u, n, result, n) &&
    Disjoint(workspace, 5 * n, modulus, n) && Disjoint(workspace, 5 * n, u, n) && Disjoint(workspace, 5 * n, result, n)
  }

  class MontgomeryRepresentation {
    const memory: array<Word>
    const n: nat
    const modulus: nat
    const u: nat
    const result: nat
    const workspace: nat

    ghost predicate Valid()
      reads memory
    {
      Layout(memory.Length, modulus, u, result, workspace, n) && memory[modulus] % 2 == 1 &&
      InverseOf(memory[..], u, memory[..], modulus, n)
    }

    ghost function Modulus(): nat
      requires modulus + n <= memory.Length
      reads memory
    {
      Num(memory[..], modulus, n)
    }

    /** The factor by which representations are scaled is invertible: what every reduction relies on. */
    lemma ModulusInverse() returns (inverse: int)
      requires Valid()
      ensures inverse * Modulus() % Scale(n) == 1 && Modulus() % 2 == 1
    {
      hide Num, Scale;
      PowerIsEven(n);
      OddNumber(memory[..], modulus, n);
      inverse := Num(memory[..], u, n);
    }

    lemma ModulusPositive()
      requires Valid()
      ensures 0 < Modulus()
    {
      hide Num, Scale;
      var inverse := ModulusInverse();
    }

    constructor (memory: array<Word>, modulus: nat, u: nat, result: nat, workspace: nat, n: nat)
      requires Layout(memory.Length, modulus, u, result, workspace, n) && memory[modulus] % 2 == 1
      modifies memory
      ensures this.memory == memory && this.n == n && this.modulus == modulus && this.u == u
      ensures this.result == result && this.workspace == workspace
      ensures Valid() && Modulus() == old(Num(memory[..], modulus, n))
      ensures OnlyChanged2(old(memory[..]), memory[..], u, n, workspace, 5 * n)
    {
      hide Num, Scale, PowerOfTwo;
      this.memory, this.n, this.modulus, this.u := memory, n, modulus, u;
      this.result, this.workspace := result, workspace;
      new;
      ghost var s := memory[..];
      RecursiveInverseModPower2(memory, u, workspace, modulus, n);
      NumsKept2(s, memory[..], u, n, workspace, InverseScratch(n));
      InverseKeeps(s, memory[..], u, u, modulus, n);
    }

    /** An even modulus is refused before anything is computed. */
    static method Create(memory: array<Word>, modulus: nat, u: nat, result: nat, workspace: nat, n: nat)
        returns (ring: MontgomeryRepresentation?)
      requires Layout(memory.Length, modulus, u, result, workspace, n)
      modifies memory
      ensures ring == null <==> old(memory[modulus]) % 2 == 0
      ensures ring == null ==> memory[..] == old(memory[..])
      ensures ring != null ==> ring.Valid() && ring.memory == memory && ring.Modulus() == old(Num(memory[..], modulus, n))
    {
      if memory[modulus] % 2 == 0 {
        return null;
      }
      ring := new MontgomeryRepresentation(memory, modulus, u, result, workspace, n);
    }

    /** The reduction every operation ends with: result from the 2n words at the start of the workspace. */
    method ReduceWorkspace(ghost s: seq<Word>, ghost x: nat)
      requires Valid() && OnlyChanged(s, memory[..], workspace, 5 * n)
      requires Num(memory[..], workspace, 2 * n) == x < Modulus() * Scale(n)
      modifies memory
      ensures Valid() && Modulus() == old(Modulus())
      ensures Reduced(Num(memory[..], result, n), x, Modulus(), n)
      ensures OnlyChanged2(s, memory[..], result, n, workspace, 5 * n)
    {
      hide Num, Scale, PowerOfTwo, Reduced;
      ghost var before := memory[..];
      PowerIsEven(n);
      MontgomeryReduce(memory, result, workspace + 2 * n, workspace, modulus, u, n);
      NumsKept2(before, memory[..], result, n, workspace + 2 * n, 3 * n);
    }

    method Multiply(a: nat, na: nat, b: nat, nb: nat)
      requires Valid() && Operand(memory.Length, workspace, n, a, na) && Operand(memory.Length, workspace, n, b, nb)
      requires Num(memory[..], a, na) < Modulus() || Num(memory[..], b, nb) < Modulus()
      modifies memory
      ensures Valid() && Modulus() == old(Modulus())
      ensures Reduced(Num(memory[..], result, n), old(Num(memory[..], a, na)) * old(Num(memory[..], b, nb)), Modulus(), n)
      ensures OnlyChanged2(old(memory[..]), memory[..], result, n, workspace, 5 * n)
    {
      hide Num, Scale, PowerOfTwo, Reduced, InverseOf;
      ghost var s := memory[..];
      if na < nb { PowersDivide(na, nb); } else if nb < na { PowersDivide(nb, na); }
      AsymmetricMultiply(memory, workspace, workspace + 2 * n, a, na, b, nb);
      ghost var s1 := memory[..];
      SetWords(memory, workspace + na + nb, 0, 2 * n - na - nb);
      ghost var s2 := memory[..];
      NumsKept(s1, s2, workspace + na + nb, 2 * n - na - nb);
      ZeroExtended(s2, workspace, na + nb, 2 * n - na - nb);
      WorkspaceOnly(s, s2, workspace, modulus, u, n);
      OperandBelow(s, a, na, n);
      OperandBelow(s, b, nb, n);
      ReducibleProduct(Num(s, a, na), Num(s, b, nb), Modulus(), Scale(n));
      NatProduct(Num(s, a, na), Num(s, b, nb));
      ReduceWorkspace(s, Num(s, a, na) * Num(s, b, nb));
    }

    method Square(a: nat, na: nat)
      requires Valid() && Operand(memory.Length, workspace, n, a, na) && Num(memory[..], a, na) < Modulus()
      modifies memory
      ensures Valid() && Modulus() == old(Modulus())
      ensures Reduced(Num(memory[..], result, n), old(Num(memory[..], a, na)) * old(Num(memory[..], a, na)), Modulus(), n)
      ensures OnlyChanged2(old(memory[..]), memory[..], result, n, workspace, 5 * n)
    {
      hide Num, Scale, PowerOfTwo, Reduced, InverseOf;
      ghost var s := memory[..];
      RecursiveSquare(memory, workspace, workspace + 2 * n, a, na);
      ghost var s1 := memory[..];
      SetWords(memory, workspace + 2 * na, 0, 2 * n - 2 * na);
      ghost var s2 := memory[..];
      NumsKept(s1, s2, workspace + 2 * na, 2 * n - 2 * na);
      ZeroExtended(s2, workspace, 2 * na, 2 * n - 2 * na);
      WorkspaceOnly(s, s2, workspace, modulus, u, n);
      OperandBelow(s, a, na, n);
      ReducibleProduct(Num(s, a, na), Num(s, a, na), Modulus(), Scale(n));
      NatProduct(Num(s, a, na), Num(s, a, na));
      ReduceWorkspace(s, Num(s, a, na) * Num(s, a, na));
    }

    /** An operand zero-extended into the workspace and reduced. */
    method ReduceOperand(a: nat, na: nat)
      requires Valid() && Operand(memory.Length, workspace, n, a, na)
      modifies memory
      ensures Valid() && Modulus() == old(Modulus())
      ensures Reduced(Num(memory[..], result, n), old(Num(memory[..], a, na)), Modulus(), n)
      ensures OnlyChanged2(old(memory[..]), memory[..], result, n, workspace, 5 * n)
    {
      hide Num, Scale, PowerOfTwo, Reduced, InverseOf;
      ghost var s := memory[..];
      CopyWords(memory, workspace, a, na);
      ghost var s1 := memory[..];
      SetWords(memory, workspace + na, 0, 2 * n - na);
      ghost var s2 := memory[..];
      NumsKept(s1, s2, workspace + na, 2 * n - na);
      ZeroExtended(s2, workspace, na, 2 * n - na);
      WorkspaceOnly(s, s2, workspace, modulus, u, n);
      OperandBelow(s, a, na, n);
      ModulusPositive();
      ReducibleOperand(Num(s, a, na), Modulus(), Scale(n));
      ReduceWorkspace(s, Num(s, a, na));
    }

    method ConvertOut(a: nat, na: nat)
      requires Valid() && Operand(memory.Length, workspace, n, a, na)
      modifies memory
      ensures Valid() && Modulus() == old(Modulus())
      ensures Reduced(Num(memory[..], result, n), old(Num(memory[..], a, na)), Modulus(), n)
      ensures OnlyChanged2(old(memory[..]), memory[..], result, n, workspace, 5 * n)
    {
      ReduceOperand(a, na);
    }

    method MultiplicativeInverse(a: nat, na: nat)
      requires Valid() && Operand(memory.Length, workspace, n, a, na)
      modifies memory
      ensures Valid() && Modulus() == old(Modulus())
      ensures ScaledInverse(Num(memory[..], result, n), old(Num(memory[..], a, na)), Modulus(), n)
      ensures OnlyChanged2(old(memory[..]), memory[..], result, n, workspace, 5 * n)
    {
      hide Num, Scale, PowerOfTwo, InverseOf, ScaledInverse, Congruent;
      ghost var s := memory[..];
      ReduceOperand(a, na);
      ghost var s1 := memory[..];
      PowerIsEven(n);
      var k;
      ghost var divisor;
      k, divisor := AlmostInverse(memory, result, workspace, result, n, modulus, n);
      ghost var s2 := memory[..];
      NumsKept2(s1, s2, result, n, workspace, 4 * n);
      if k > n * WORD_BITS {
        DivideByPower2Mod(memory, result, result, k - n * WORD_BITS, modulus, n);
      } else {
        MultiplyByPower2Mod(memory, result, result, n * WORD_BITS - k, modulus, n);
        Mod(Num(s2, result, n) * Pow2(n * WORD_BITS - k), Num(s2, modulus, n));
      }
      NumsKept(s2, memory[..], result, n);
      InverseKeeps(s1, memory[..], u, u, modulus, n);
      OddNumber(memory[..], modulus, n);
      CompletedInverse(Num(s, a, na), Num(s1, result, n), Num(s2, result, n), k, divisor, Num(memory[..], result, n), Modulus(), n);
    }

    /** Room for an operand that no operation of the ring writes to. */
    ghost predicate Slot(at: nat) {
      at + n <= memory.Length && Disjoint(at, n, modulus, n) && Disjoint(at, n, u, n) &&
      Disjoint(at, n, result, n) && Disjoint(workspace, 5 * n, at, n)
    }

    /** The representation of a residue, stored in n words. */
    method ConvertInto(at: nat, x: int)
      requires Valid() && Slot(at)
      modifies memory
      ensures Valid() && Modulus() == old(Modulus())
      ensures Represents(Num(memory[..], at, n), x, Modulus(), n)
      ensures OnlyChanged(old(memory[..]), memory[..], at, n)
    {
      hide Num, Scale, PowerOfTwo, InverseOf, Pow2, ConvertIn, Congruent;
      ghost var s := memory[..];
      ModulusPositive();
      var p := LoadNumber(memory, modulus, n);
      NumBound(s, modulus, n);
      ConvertInRepresents(x, p, n);
      StoreNumber(memory, at, n, ConvertIn(x, p, n));
      NumsKept(s, memory[..], at, n);
      InverseKeeps(s, memory[..], u, u, modulus, n);
    }

    /** Whole products: both operands converted in, multiplied in the ring, and the result converted out. */
    method ModularProduct(at: nat, bt: nat, x: int, y: int)
      requires Valid() && Slot(at) && Slot(bt) && Disjoint(at, n, bt, n)
      modifies memory
      ensures Valid() && Modulus() == old(Modulus()) && 0 < Modulus()
      ensures Num(memory[..], result, n) == x * y % Modulus()
    {
      hide Num, Scale, PowerOfTwo, InverseOf, Pow2, Reduced, Congruent;
      ConvertInto(at, x);
      ghost var s1 := memory[..];
      ConvertInto(bt, y);
      ghost var v, w := Num(memory[..], at, n), Num(memory[..], bt, n);
      NumsKept(s1, memory[..], bt, n);
      Multiply(at, n, bt, n);
      ghost var product := Num(memory[..], result, n);
      ConvertOut(result, n);
      ghost var inverse := ModulusInverse();
      ReducedProduct(v, w, product, x, y, Modulus(), n, inverse);
      ReducedRepresentation(product, Num(memory[..], result, n), x * y, Modulus(), n, inverse);
    }

    /** Whole inverses: 0 exactly for numbers that share a divisor with the modulus (or when the modulus is 1). */
    method ModularReciprocal(at: nat, x: int)
      requires Valid() && Slot(at)
      modifies memory
      ensures Valid() && Modulus() == old(Modulus()) && 0 <= Num(memory[..], result, n) < Modulus()
      ensures if HaveCommonDivisor(x, Modulus()) then Num(memory[..], result, n) == 0
              else Congruent(Num(memory[..], result, n) * x, 1, Modulus())
    {
      hide Num, Scale, PowerOfTwo, InverseOf, Pow2, Reduced, ConvertIn, ScaledInverse, Represents, Congruent, HaveCommonDivisor;
      ConvertInto(at, x);
      ghost var v := Num(memory[..], at, n);
      MultiplicativeInverse(at, n);
      ghost var r := Num(memory[..], result, n);
      ConvertOut(result, n);
      ghost var inverse := ModulusInverse();
      ReciprocalOut(r, v, Num(memory[..], result, n), x, Modulus(), n, inverse);
    }
  }

  lemma InverseKeeps(s: seq<Word>, t: seq<Word>, r: nat, w: nat, a: nat, n: nat)
    requires r + n <= |s| && w + n <= |t| && a + n <= |s| && a + n <= |t|
    requires InverseOf(t, w, s, a, n) || (InverseOf(s, r, s, a, n) && Num(t, w, n) == Num(s, r, n))
    requires Num(t, a, n) == Num(s, a, n)
    ensures InverseOf(t, w, t, a, n)
  {
    hide Num, Scale;
  }

  lemma WorkspaceOnly(s: seq<Word>, t: seq<Word>, workspace: nat, modulus: nat, u: nat, n: nat)
    requires n > 0 && OnlyChanged(s, t, workspace, 5 * n) && modulus + n <= |s| && u + n <= |s| && InverseOf(s, u, s, modulus, n)
    requires Disjoint(workspace, 5 * n, modulus, n) && Disjoint(workspace, 5 * n, u, n)
    ensures t[modulus] == s[modulus] && Num(t, modulus, n) == Num(s, modulus, n) && InverseOf(t, u, t, modulus, n)
  {
    hide Num, Scale;
    NumsKept(s, t, workspace, 5 * n);
  }

  lemma OperandBelow(s: seq<Word>, a: nat, na: nat, n: nat)
    requires na <= n && a + na <= |s|
    ensures Num(s, a, na) < Scale(n)
  {
    hide Num, Scale;
    NumBound(s, a, na);
    ScaleMonotone(na, n);
  }
}
