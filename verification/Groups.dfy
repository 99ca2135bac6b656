/** Commutative groups and integer multiples of their elements. The curve's point
    formulas are represented by the group they implement. */
module Groups {
  datatype Group<!G> = Group(zero: G, add: (G, G) -> G, neg: G -> G)

  ghost predicate Laws<G(!new)>(g: Group<G>) {
    && (forall x: G :: g.add(x, g.zero) == x)
    && (forall x: G, y: G :: g.add(x, y) == g.add(y, x))
    && (forall x: G, y: G, z: G :: g.add(g.add(x, y), z) == g.add(x, g.add(y, z)))
    && (forall x: G :: g.add(x, g.neg(x)) == g.zero)
  }

  /** The laws of a commutative group. `fold` keeps them folded: the lemmas below apply
      them one at a time. */
  ghost predicate Abelian<G(!new)>(g: Group<G>, fold: nat := 3) {
    if fold == 0 then Laws(g) else Abelian(g, fold - 1)
  }

  lemma {:induction false} AbelianIs<G(!new)>(g: Group<G>, fold: nat := 3)
    requires Abelian(g, fold)
    ensures Laws(g)
  {
    if fold > 0 {
      AbelianIs(g, fold - 1);
    }
  }

  lemma Zero<G(!new)>(g: Group<G>, x: G)
    requires Abelian(g)
    ensures g.add(x, g.zero) == x && g.add(g.zero, x) == x
  {
    AbelianIs(g);
  }

  lemma Comm<G(!new)>(g: Group<G>, x: G, y: G)
    requires Abelian(g)
    ensures g.add(x, y) == g.add(y, x)
  {
    AbelianIs(g);
  }

  lemma Assoc<G(!new)>(g: Group<G>, x: G, y: G, z: G)
    requires Abelian(g)
    ensures g.add(g.add(x, y), z) == g.add(x, g.add(y, z))
  {
    AbelianIs(g);
  }

  lemma Neg<G(!new)>(g: Group<G>, x: G)
    requires Abelian(g)
    ensures g.add(x, g.neg(x)) == g.zero && g.add(g.neg(x), x) == g.zero
  {
    AbelianIs(g);
  }

  /** n times x. */
  function Times<G>(g: Group<G>, n: int, x: G): G
    decreases if n < 0 then 1 - n else n
  {
    if n == 0 then g.zero
    else if n > 0 then g.add(x, Times(g, n - 1, x))
    else g.neg(Times(g, -n, x))
  }

  lemma Cancel<G(!new)>(g: Group<G>, x: G, y: G, z: G)
    requires Abelian(g) && g.add(x, y) == g.add(x, z)
    ensures y == z
  {
    Assoc(g, g.neg(x), x, y);
    Assoc(g, g.neg(x), x, z);
    Neg(g, x);
    Zero(g, y);
    Zero(g, z);
  }

  lemma Inverse<G(!new)>(g: Group<G>, x: G, y: G)
    requires Abelian(g) && g.add(x, y) == g.zero
    ensures y == g.neg(x)
  {
    Neg(g, x);
    Cancel(g, x, y, g.neg(x));
  }

  /** Four summands regrouped. */
  lemma Regroup<G(!new)>(g: Group<G>, a: G, b: G, c: G, d: G)
    requires Abelian(g)
    ensures g.add(g.add(a, b), g.add(c, d)) == g.add(g.add(a, c), g.add(b, d))
  {
    Assoc(g, a, b, g.add(c, d));
    Assoc(g, b, c, d);
    Comm(g, b, c);
    Assoc(g, c, b, d);
    Assoc(g, a, c, g.add(b, d));
  }

  lemma NegAdd<G(!new)>(g: Group<G>, x: G, y: G)
    requires Abelian(g)
    ensures g.neg(g.add(x, y)) == g.add(g.neg(x), g.neg(y))
  {
    Regroup(g, x, y, g.neg(x), g.neg(y));
    Neg(g, x);
    Neg(g, y);
    Zero(g, g.zero);
    Inverse(g, g.add(x, y), g.add(g.neg(x), g.neg(y)));
  }

  lemma NegNeg<G(!new)>(g: Group<G>, x: G)
    requires Abelian(g)
    ensures g.neg(g.neg(x)) == x && g.neg(g.zero) == g.zero
  {
    Neg(g, x);
    Inverse(g, g.neg(x), x);
    Zero(g, g.zero);
    Inverse(g, g.zero, g.zero);
  }

  lemma TimesNeg<G(!new)>(g: Group<G>, n: int, x: G)
    requires Abelian(g)
    ensures Times(g, -n, x) == g.neg(Times(g, n, x))
  {
    if n < 0 {
      NegNeg(g, Times(g, -n, x));
    } else if n == 0 {
      NegNeg(g, x);
    }
  }

  /** One more, for any sign. */
  lemma TimesNext<G(!new)>(g: Group<G>, n: int, x: G)
    requires Abelian(g)
    ensures Times(g, n + 1, x) == g.add(x, Times(g, n, x))
  {
    if n < 0 {
      var m := -n - 1;
      var y := Times(g, m, x);
      TimesNeg(g, m, x);
      TimesNeg(g, m + 1, x);
      NegAdd(g, x, y);
      Assoc(g, x, g.neg(x), g.neg(y));
      Neg(g, x);
      Zero(g, g.neg(y));
    }
  }

  lemma {:induction false} TimesAdd<G(!new)>(g: Group<G>, m: int, n: int, x: G)
    requires Abelian(g)
    ensures Times(g, m + n, x) == g.add(Times(g, m, x), Times(g, n, x))
    decreases if m < 0 then -m else m
  {
    if m == 0 {
      Zero(g, Times(g, n, x));
    } else if m > 0 {
      TimesAdd(g, m - 1, n, x);
      TimesNext(g, m - 1 + n, x);
      Assoc(g, x, Times(g, m - 1, x), Times(g, n, x));
    } else {
      TimesAdd(g, m + 1, n, x);
      TimesNext(g, m + n, x);
      TimesNext(g, m, x);
      Assoc(g, x, Times(g, m, x), Times(g, n, x));
      Cancel(g, x, Times(g, m + n, x), g.add(Times(g, m, x), Times(g, n, x)));
    }
  }

  lemma {:induction false} TimesMul<G(!new)>(g: Group<G>, m: nat, n: int, x: G)
    requires Abelian(g)
    ensures Times(g, m, Times(g, n, x)) == Times(g, m * n, x)
  {
    if m > 0 {
      TimesMul(g, m - 1, n, x);
      TimesAdd(g, n, (m - 1) * n, x);
      assert n + (m - 1) * n == m * n;
    }
  }

  lemma TimesOne<G(!new)>(g: Group<G>, x: G)
    requires Abelian(g)
    ensures Times(g, 1, x) == x && Times(g, 2, x) == g.add(x, x)
  {
    assert Times(g, 0, x) == g.zero;
    Zero(g, x);
  }

  /** Two multiples of two elements, added termwise. */
  lemma PairAdd<G(!new)>(g: Group<G>, m: int, n: int, m': int, n': int, x: G, y: G)
    requires Abelian(g)
    ensures g.add(g.add(Times(g, m, x), Times(g, n, y)), g.add(Times(g, m', x), Times(g, n', y)))
            == g.add(Times(g, m + m', x), Times(g, n + n', y))
  {
    Regroup(g, Times(g, m, x), Times(g, n, y), Times(g, m', x), Times(g, n', y));
    TimesAdd(g, m, m', x);
    TimesAdd(g, n, n', y);
  }
}
