/** AbstractGroup: elements with an associative operation, and inverses where they are claimed to be fast. */
module Groups {

  datatype Group<!T> = Group(identity: T, add: (T, T) -> T, inverse: T -> T, inversionIsFast: bool)
  {
    function Double(x: T): T { add(x, x) }
  }

  /** Inverses are asked for only where inversionIsFast says so: otherwise any monoid will do. */
  ghost predicate Lawful<T(!new)>(grp: Group<T>) {
    (forall x, y, z :: grp.add(grp.add(x, y), z) == grp.add(x, grp.add(y, z))) &&
    (forall x :: grp.add(grp.identity, x) == x && grp.add(x, grp.identity) == x) &&
    (grp.inversionIsFast ==> forall x :: grp.add(x, grp.inverse(x)) == grp.identity && grp.add(grp.inverse(x), x) == grp.identity)
  }

  /** The e-fold sum of b, of its inverse for negative e. */
  ghost function Times<T>(grp: Group<T>, b: T, e: int): T
    decreases if e < 0 then -e else e
  {
    if e == 0 then grp.identity
    else if e > 0 then grp.add(Times(grp, b, e - 1), b)
    else grp.add(Times(grp, b, e + 1), grp.inverse(b))
  }

  /** Multiples the group can form: negative ones only with inverses. */
  predicate Allowed<T>(grp: Group<T>, e: int) {
    grp.inversionIsFast || e >= 0
  }

  lemma Associative<T(!new)>(grp: Group<T>, x: T, y: T, z: T)
    requires Lawful(grp)
    ensures grp.add(grp.add(x, y), z) == grp.add(x, grp.add(y, z))
  {
  }

  lemma Neutral<T(!new)>(grp: Group<T>, x: T)
    requires Lawful(grp)
    ensures grp.add(grp.identity, x) == x && grp.add(x, grp.identity) == x
  {
  }

  lemma Cancels<T(!new)>(grp: Group<T>, x: T)
    requires Lawful(grp) && grp.inversionIsFast
    ensures grp.add(x, grp.inverse(x)) == grp.identity && grp.add(grp.inverse(x), x) == grp.identity
  {
  }

  /** What the multiples are multiples of. */
  lemma TimesOnce<T(!new)>(grp: Group<T>, b: T)
    requires Lawful(grp)
    ensures Times(grp, b, 0) == grp.identity && Times(grp, b, 1) == b && Times(grp, b, 2) == grp.add(b, b)
    ensures grp.inversionIsFast ==> Times(grp, b, -1) == grp.inverse(b)
  {
    hide Lawful;
    Neutral(grp, b);
    Neutral(grp, grp.inverse(b));
    assert Times(grp, b, 1) == grp.add(Times(grp, b, 0), b);
  }

  lemma TimesNext<T(!new)>(grp: Group<T>, b: T, e: int)
    requires Lawful(grp) && Allowed(grp, e)
    ensures Times(grp, b, e + 1) == grp.add(Times(grp, b, e), b)
  {
    hide Lawful;
    if e < 0 {
      var t := Times(grp, b, e + 1);
      Associative(grp, t, grp.inverse(b), b);
      Cancels(grp, b);
      Neutral(grp, t);
    }
  }

  lemma TimesPrevious<T(!new)>(grp: Group<T>, b: T, e: int)
    requires Lawful(grp) && grp.inversionIsFast
    ensures Times(grp, b, e - 1) == grp.add(Times(grp, b, e), grp.inverse(b))
  {
    hide Lawful;
    if e > 0 {
      var t := Times(grp, b, e - 1);
      Associative(grp, t, b, grp.inverse(b));
      Cancels(grp, b);
      Neutral(grp, t);
    }
  }

  lemma {:induction false} TimesSum<T(!new)>(grp: Group<T>, b: T, d: int, e: int)
    requires Lawful(grp) && Allowed(grp, d) && Allowed(grp, e)
    ensures Times(grp, b, d + e) == grp.add(Times(grp, b, d), Times(grp, b, e))
    decreases if e < 0 then -e else e
  {
    hide Lawful;
    var t := Times(grp, b, d);
    if e > 0 {
      TimesSum(grp, b, d, e - 1);
      TimesNext(grp, b, d + e - 1);
      Associative(grp, t, Times(grp, b, e - 1), b);
    } else if e < 0 {
      TimesSum(grp, b, d, e + 1);
      TimesPrevious(grp, b, d + e + 1);
      Associative(grp, t, Times(grp, b, e + 1), grp.inverse(b));
    } else {
      Neutral(grp, t);
    }
  }

  lemma TimesInverse<T(!new)>(grp: Group<T>, b: T, e: int)
    requires Lawful(grp) && grp.inversionIsFast
    ensures grp.inverse(Times(grp, b, e)) == Times(grp, b, -e)
  {
    hide Lawful;
    var x, y := Times(grp, b, e), Times(grp, b, -e);
    TimesSum(grp, b, e, -e);
    Associative(grp, grp.inverse(x), x, y);
    Cancels(grp, x);
    Neutral(grp, y);
    Neutral(grp, grp.inverse(x));
  }
}
