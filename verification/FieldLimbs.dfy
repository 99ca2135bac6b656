/** Field elements of ed25519/fe.c and curve25519-donna.c: ten signed limbs of 26 and 25
    bits in turn, and the schoolbook product reduced modulo 2^255 - 19. */
module FieldLimbs {
  import Arith

  /** The prime 2^255 - 19. */
  const P: int := 0x7fffffffffffffffffffffffffffffffffffffffffffffffffffffffffffffed

  /** Equal modulo the prime. */
  predicate Congruent(a: int, b: int) { a % P == b % P }

  lemma CongruentBy(a: int, b: int, k: int)
    requires a == b + P * k
    ensures Congruent(a, b)
  {
    var q, r := b / P, b % P;
    Arith.MulDist(P, q, k);
    Arith.QuotientUnique(a, P, q + k, r);
  }

  datatype Limbs = Limbs(h0: int, h1: int, h2: int, h3: int, h4: int, h5: int, h6: int, h7: int, h8: int, h9: int)

  /** The weight of limb i. */
  function Weight(i: nat): int {
    if i == 0 then 0x1
    else if i == 1 then 0x4000000
    else if i == 2 then 0x8000000000000
    else if i == 3 then 0x20000000000000000000
    else if i == 4 then 0x40000000000000000000000000
    else if i == 5 then 0x100000000000000000000000000000000
    else if i == 6 then 0x200000000000000000000000000000000000000
    else if i == 7 then 0x800000000000000000000000000000000000000000000
    else if i == 8 then 0x1000000000000000000000000000000000000000000000000000
    else 0x4000000000000000000000000000000000000000000000000000000000
  }

  function Weighted(x: Limbs): int {
    x.h0 + 0x4000000 * x.h1 + 0x8000000000000 * x.h2 + 0x20000000000000000000 * x.h3
        + 0x40000000000000000000000000 * x.h4 + 0x100000000000000000000000000000000 * x.h5
        + 0x200000000000000000000000000000000000000 * x.h6 + 0x800000000000000000000000000000000000000000000 * x.h7
        + 0x1000000000000000000000000000000000000000000000000000 * x.h8
        + 0x4000000000000000000000000000000000000000000000000000000000 * x.h9
  }

  /** The number that limbs stand for. Lemma ValIs opens the definition. */
  function Val(x: Limbs, fold: nat := 3): int {
    if fold > 0 then Val(x, fold - 1) else Weighted(x)
  }

  lemma {:induction false} ValIs(x: Limbs, fold: nat := 3)
    ensures Val(x, fold) == Weighted(x)
  {
    if fold > 0 {
      ValIs(x, fold - 1);
    }
  }

  function Sum(x: Limbs, y: Limbs): Limbs {
    Limbs(x.h0 + y.h0, x.h1 + y.h1, x.h2 + y.h2, x.h3 + y.h3, x.h4 + y.h4, x.h5 + y.h5, x.h6 + y.h6, x.h7 + y.h7,
        x.h8 + y.h8, x.h9 + y.h9)
  }

  /** The products of one limb with all limbs. */
  function Times(x: int, y: Limbs): Limbs {
    Limbs(x * y.h0, x * y.h1, x * y.h2, x * y.h3, x * y.h4, x * y.h5, x * y.h6, x * y.h7, x * y.h8, x * y.h9)
  }

  function At(x: Limbs, i: nat): int {
    if i == 0 then x.h0
    else if i == 1 then x.h1
    else if i == 2 then x.h2
    else if i == 3 then x.h3
    else if i == 4 then x.h4
    else if i == 5 then x.h5
    else if i == 6 then x.h6
    else if i == 7 then x.h7
    else if i == 8 then x.h8
    else x.h9
  }

  /** The contribution of limb i of one factor to the columns of the product, from the
      products a of that limb with the other factor: twice where both limbs are odd, and
      nineteen times what passes 2^255. */
  function Row(i: nat, a: Limbs): Limbs
    requires i < 10
  {
    match i
    case 0 => Limbs(a.h0, a.h1, a.h2, a.h3, a.h4, a.h5, a.h6, a.h7, a.h8, a.h9)
    case 1 => Limbs(38 * a.h9, a.h0, 2 * a.h1, a.h2, 2 * a.h3, a.h4, 2 * a.h5, a.h6, 2 * a.h7, a.h8)
    case 2 => Limbs(19 * a.h8, 19 * a.h9, a.h0, a.h1, a.h2, a.h3, a.h4, a.h5, a.h6, a.h7)
    case 3 => Limbs(38 * a.h7, 19 * a.h8, 38 * a.h9, a.h0, 2 * a.h1, a.h2, 2 * a.h3, a.h4, 2 * a.h5, a.h6)
    case 4 => Limbs(19 * a.h6, 19 * a.h7, 19 * a.h8, 19 * a.h9, a.h0, a.h1, a.h2, a.h3, a.h4, a.h5)
    case 5 => Limbs(38 * a.h5, 19 * a.h6, 38 * a.h7, 19 * a.h8, 38 * a.h9, a.h0, 2 * a.h1, a.h2, 2 * a.h3, a.h4)
    case 6 => Limbs(19 * a.h4, 19 * a.h5, 19 * a.h6, 19 * a.h7, 19 * a.h8, 19 * a.h9, a.h0, a.h1, a.h2, a.h3)
    case 7 => Limbs(38 * a.h3, 19 * a.h4, 38 * a.h5, 19 * a.h6, 38 * a.h7, 19 * a.h8, 38 * a.h9, a.h0, 2 * a.h1, a.h2)
    case 8 => Limbs(19 * a.h2, 19 * a.h3, 19 * a.h4, 19 * a.h5, 19 * a.h6, 19 * a.h7, 19 * a.h8, 19 * a.h9, a.h0, a.h1)
    case _ => Limbs(38 * a.h1, 19 * a.h2, 38 * a.h3, 19 * a.h4, 38 * a.h5, 19 * a.h6, 38 * a.h7, 19 * a.h8, 38 * a.h9, a.h0)
  }

  /** How often the prime goes into what row i drops. */
  function Excess(i: nat, a: Limbs): int
    requires i < 10
  {
    match i
    case 0 => 0
    case 1 => 0x2 * a.h9
    case 2 => 0x1 * a.h8 + 0x4000000 * a.h9
    case 3 => 0x2 * a.h7 + 0x4000000 * a.h8 + 0x10000000000000 * a.h9
    case 4 => 0x1 * a.h6 + 0x4000000 * a.h7 + 0x8000000000000 * a.h8 + 0x20000000000000000000 * a.h9
    case 5 => 0x2 * a.h5 + 0x4000000 * a.h6 + 0x10000000000000 * a.h7 + 0x20000000000000000000 * a.h8
        + 0x80000000000000000000000000 * a.h9
    case 6 => 0x1 * a.h4 + 0x4000000 * a.h5 + 0x8000000000000 * a.h6 + 0x20000000000000000000 * a.h7
        + 0x40000000000000000000000000 * a.h8 + 0x100000000000000000000000000000000 * a.h9
    case 7 => 0x2 * a.h3 + 0x4000000 * a.h4 + 0x10000000000000 * a.h5 + 0x20000000000000000000 * a.h6
        + 0x80000000000000000000000000 * a.h7 + 0x100000000000000000000000000000000 * a.h8
        + 0x400000000000000000000000000000000000000 * a.h9
    case 8 => 0x1 * a.h2 + 0x4000000 * a.h3 + 0x8000000000000 * a.h4 + 0x20000000000000000000 * a.h5
        + 0x40000000000000000000000000 * a.h6 + 0x100000000000000000000000000000000 * a.h7
        + 0x200000000000000000000000000000000000000 * a.h8 + 0x800000000000000000000000000000000000000000000 * a.h9
    case _ =>
      0x2 * a.h1 + 0x4000000 * a.h2 + 0x10000000000000 * a.h3 + 0x20000000000000000000 * a.h4
      + 0x80000000000000000000000000 * a.h5 + 0x100000000000000000000000000000000 * a.h6 + 0x400000000000000000000000000000000000000 * a.h7
      + 0x800000000000000000000000000000000000000000000 * a.h8 + 0x2000000000000000000000000000000000000000000000000000 * a.h9
  }

  lemma RowWeighted(i: nat, a: Limbs)
    requires i < 10
    ensures Weighted(Row(i, a)) + P * Excess(i, a) == Weight(i) * Weighted(a)
  {
    if i < 5 {
      LowRow(i, a);
    } else {
      HighRow(i, a);
    }
  }

  lemma LowRow(i: nat, a: Limbs)
    requires i < 5
    ensures Weighted(Row(i, a)) + P * Excess(i, a) == Weight(i) * Weighted(a)
  {
  }

  lemma HighRow(i: nat, a: Limbs)
    requires 5 <= i < 10
    ensures Weighted(Row(i, a)) + P * Excess(i, a) == Weight(i) * Weighted(a)
  {
  }

  /** A row stands for the weighted multiple of the factor, modulo the prime. */
  lemma RowValue(i: nat, a: Limbs)
    requires i < 10
    ensures Val(Row(i, a)) + P * Excess(i, a) == Weight(i) * Val(a)
  {
    ValIs(Row(i, a));
    ValIs(a);
    RowWeighted(i, a);
  }

  lemma SumValue(x: Limbs, y: Limbs)
    ensures Val(Sum(x, y)) == Val(x) + Val(y)
  {
    ValIs(Sum(x, y));
    ValIs(x);
    ValIs(y);
  }

  lemma TimesValue(x: int, y: Limbs)
    ensures Val(Times(x, y)) == x * Val(y)
  {
    ValIs(Times(x, y));
    ValIs(y);
    Scaled(x, 0x4000000, y.h1);
    Scaled(x, 0x8000000000000, y.h2);
    Scaled(x, 0x20000000000000000000, y.h3);
    Scaled(x, 0x40000000000000000000000000, y.h4);
    Scaled(x, 0x100000000000000000000000000000000, y.h5);
    Scaled(x, 0x200000000000000000000000000000000000000, y.h6);
    Scaled(x, 0x800000000000000000000000000000000000000000000, y.h7);
    Scaled(x, 0x1000000000000000000000000000000000000000000000000000, y.h8);
    Scaled(x, 0x4000000000000000000000000000000000000000000000000000000000, y.h9);
  }

  lemma Scaled(x: int, w: int, y: int)
    ensures w * (x * y) == x * (w * y)
  {
  }

  /** The first n rows of the product, added up. */
  function Rows(f: Limbs, g: Limbs, n: nat): Limbs
    requires n <= 10
  {
    if n == 0 then Limbs(0, 0, 0, 0, 0, 0, 0, 0, 0, 0) else Sum(Rows(f, g, n - 1), Row(n - 1, Times(At(f, n - 1), g)))
  }

  /** The limbs before n. */
  function Prefix(f: Limbs, n: nat): int
    requires n <= 10
  {
    if n == 0 then 0 else Prefix(f, n - 1) + Weight(n - 1) * At(f, n - 1)
  }

  /** The rows stand for the product, modulo the prime. */
  lemma {:induction false} RowsValue(f: Limbs, g: Limbs, n: nat) returns (k: int)
    requires n <= 10
    ensures Val(Rows(f, g, n)) + P * k == Prefix(f, n) * Val(g)
  {
    if n == 0 {
      k := 0;
      ValIs(Rows(f, g, 0));
    } else {
      var i := n - 1;
      var a := Times(At(f, i), g);
      var k' := RowsValue(f, g, i);
      k := k' + Excess(i, a);
      RowValue(i, a);
      TimesValue(At(f, i), g);
      SumValue(Rows(f, g, i), Row(i, a));
      RowsArith(Prefix(f, i), Weight(i), At(f, i), Val(g), k', Excess(i, a), Val(Rows(f, g, i)), Val(Row(i, a)));
    }
  }

  lemma RowsArith(p: int, w: int, x: int, v: int, k: int, e: int, s: int, r: int)
    requires s + P * k == p * v && r + P * e == w * (x * v)
    ensures s + r + P * (k + e) == (p + w * x) * v
  {
    Arith.MulAssoc(w, x, v);
  }

  lemma PrefixAll(f: Limbs)
    ensures Prefix(f, 10) == Val(f)
  {
    ValIs(f);
    assert Prefix(f, 1) == f.h0;
    assert Prefix(f, 2) == Prefix(f, 1) + 0x4000000 * f.h1;
    assert Prefix(f, 3) == Prefix(f, 2) + 0x8000000000000 * f.h2;
    assert Prefix(f, 4) == Prefix(f, 3) + 0x20000000000000000000 * f.h3;
    assert Prefix(f, 5) == Prefix(f, 4) + 0x40000000000000000000000000 * f.h4;
    assert Prefix(f, 6) == Prefix(f, 5) + 0x100000000000000000000000000000000 * f.h5;
    assert Prefix(f, 7) == Prefix(f, 6) + 0x200000000000000000000000000000000000000 * f.h6;
    assert Prefix(f, 8) == Prefix(f, 7) + 0x800000000000000000000000000000000000000000000 * f.h7;
    assert Prefix(f, 9) == Prefix(f, 8) + 0x1000000000000000000000000000000000000000000000000000 * f.h8;
    assert Prefix(f, 10) == Prefix(f, 9) + 0x4000000000000000000000000000000000000000000000000000000000 * f.h9;
  }

  /** Column k of the product: every pair of limbs whose indices add up to k modulo 10, twice
      where both are odd, nineteen times where they add up to k + 10. */
  function ColumnSum(f: Limbs, g: Limbs, k: nat): int {
    if k == 0 then f.h0 * g.h0 + 38 * (f.h1 * g.h9) + 19 * (f.h2 * g.h8) + 38 * (f.h3 * g.h7) + 19 * (f.h4 * g.h6)
        + 38 * (f.h5 * g.h5) + 19 * (f.h6 * g.h4) + 38 * (f.h7 * g.h3) + 19 * (f.h8 * g.h2) + 38 * (f.h9 * g.h1)
    else if k == 1 then f.h0 * g.h1 + f.h1 * g.h0 + 19 * (f.h2 * g.h9) + 19 * (f.h3 * g.h8) + 19 * (f.h4 * g.h7)
        + 19 * (f.h5 * g.h6) + 19 * (f.h6 * g.h5) + 19 * (f.h7 * g.h4) + 19 * (f.h8 * g.h3) + 19 * (f.h9 * g.h2)
    else if k == 2 then f.h0 * g.h2 + 2 * (f.h1 * g.h1) + f.h2 * g.h0 + 38 * (f.h3 * g.h9) + 19 * (f.h4 * g.h8)
        + 38 * (f.h5 * g.h7) + 19 * (f.h6 * g.h6) + 38 * (f.h7 * g.h5) + 19 * (f.h8 * g.h4) + 38 * (f.h9 * g.h3)
    else if k == 3 then f.h0 * g.h3 + f.h1 * g.h2 + f.h2 * g.h1 + f.h3 * g.h0 + 19 * (f.h4 * g.h9)
        + 19 * (f.h5 * g.h8) + 19 * (f.h6 * g.h7) + 19 * (f.h7 * g.h6) + 19 * (f.h8 * g.h5) + 19 * (f.h9 * g.h4)
    else if k == 4 then f.h0 * g.h4 + 2 * (f.h1 * g.h3) + f.h2 * g.h2 + 2 * (f.h3 * g.h1) + f.h4 * g.h0
        + 38 * (f.h5 * g.h9) + 19 * (f.h6 * g.h8) + 38 * (f.h7 * g.h7) + 19 * (f.h8 * g.h6) + 38 * (f.h9 * g.h5)
    else if k == 5 then f.h0 * g.h5 + f.h1 * g.h4 + f.h2 * g.h3 + f.h3 * g.h2 + f.h4 * g.h1 + f.h5 * g.h0
        + 19 * (f.h6 * g.h9) + 19 * (f.h7 * g.h8) + 19 * (f.h8 * g.h7) + 19 * (f.h9 * g.h6)
    else if k == 6 then f.h0 * g.h6 + 2 * (f.h1 * g.h5) + f.h2 * g.h4 + 2 * (f.h3 * g.h3) + f.h4 * g.h2
        + 2 * (f.h5 * g.h1) + f.h6 * g.h0 + 38 * (f.h7 * g.h9) + 19 * (f.h8 * g.h8) + 38 * (f.h9 * g.h7)
    else if k == 7 then f.h0 * g.h7 + f.h1 * g.h6 + f.h2 * g.h5 + f.h3 * g.h4 + f.h4 * g.h3 + f.h5 * g.h2
        + f.h6 * g.h1 + f.h7 * g.h0 + 19 * (f.h8 * g.h9) + 19 * (f.h9 * g.h8)
    else if k == 8 then
      f.h0 * g.h8 + 2 * (f.h1 * g.h7) + f.h2 * g.h6 + 2 * (f.h3 * g.h5) + f.h4 * g.h4 + 2 * (f.h5 * g.h3) + f.h6 * g.h2
      + 2 * (f.h7 * g.h1) + f.h8 * g.h0 + 38 * (f.h9 * g.h9)
    else
      f.h0 * g.h9 + f.h1 * g.h8 + f.h2 * g.h7 + f.h3 * g.h6 + f.h4 * g.h5 + f.h5 * g.h4 + f.h6 * g.h3
      + f.h7 * g.h2 + f.h8 * g.h1 + f.h9 * g.h0
  }

  function Column(f: Limbs, g: Limbs, k: nat, fold: nat := 3): int {
    if fold > 0 then Column(f, g, k, fold - 1) else ColumnSum(f, g, k)
  }

  lemma {:induction false} ColumnIs(f: Limbs, g: Limbs, k: nat, fold: nat := 3)
    ensures Column(f, g, k, fold) == ColumnSum(f, g, k)
  {
    if fold > 0 {
      ColumnIs(f, g, k, fold - 1);
    }
  }

  lemma Column0Is(f: Limbs, g: Limbs)
    ensures Column(f, g, 0) == f.h0 * g.h0 + 38 * (f.h1 * g.h9) + 19 * (f.h2 * g.h8) + 38 * (f.h3 * g.h7)
      + 19 * (f.h4 * g.h6) + 38 * (f.h5 * g.h5) + 19 * (f.h6 * g.h4) + 38 * (f.h7 * g.h3) + 19 * (f.h8 * g.h2)
      + 38 * (f.h9 * g.h1)
  {
    ColumnIs(f, g, 0);
  }

  lemma Column1Is(f: Limbs, g: Limbs)
    ensures Column(f, g, 1) == f.h0 * g.h1 + f.h1 * g.h0 + 19 * (f.h2 * g.h9) + 19 * (f.h3 * g.h8)
      + 19 * (f.h4 * g.h7) + 19 * (f.h5 * g.h6) + 19 * (f.h6 * g.h5) + 19 * (f.h7 * g.h4) + 19 * (f.h8 * g.h3)
      + 19 * (f.h9 * g.h2)
  {
    ColumnIs(f, g, 1);
  }

  lemma Column2Is(f: Limbs, g: Limbs)
    ensures Column(f, g, 2) == f.h0 * g.h2 + 2 * (f.h1 * g.h1) + f.h2 * g.h0 + 38 * (f.h3 * g.h9)
      + 19 * (f.h4 * g.h8) + 38 * (f.h5 * g.h7) + 19 * (f.h6 * g.h6) + 38 * (f.h7 * g.h5) + 19 * (f.h8 * g.h4)
      + 38 * (f.h9 * g.h3)
  {
    ColumnIs(f, g, 2);
  }

  lemma Column3Is(f: Limbs, g: Limbs)
    ensures Column(f, g, 3) == f.h0 * g.h3 + f.h1 * g.h2 + f.h2 * g.h1 + f.h3 * g.h0 + 19 * (f.h4 * g.h9)
      + 19 * (f.h5 * g.h8) + 19 * (f.h6 * g.h7) + 19 * (f.h7 * g.h6) + 19 * (f.h8 * g.h5) + 19 * (f.h9 * g.h4)
  {
    ColumnIs(f, g, 3);
  }

  lemma Column4Is(f: Limbs, g: Limbs)
    ensures Column(f, g, 4) == f.h0 * g.h4 + 2 * (f.h1 * g.h3) + f.h2 * g.h2 + 2 * (f.h3 * g.h1) + f.h4 * g.h0
      + 38 * (f.h5 * g.h9) + 19 * (f.h6 * g.h8) + 38 * (f.h7 * g.h7) + 19 * (f.h8 * g.h6) + 38 * (f.h9 * g.h5)
  {
    ColumnIs(f, g, 4);
  }

  lemma Column5Is(f: Limbs, g: Limbs)
    ensures Column(f, g, 5) == f.h0 * g.h5 + f.h1 * g.h4 + f.h2 * g.h3 + f.h3 * g.h2 + f.h4 * g.h1 + f.h5 * g.h0
      + 19 * (f.h6 * g.h9) + 19 * (f.h7 * g.h8) + 19 * (f.h8 * g.h7) + 19 * (f.h9 * g.h6)
  {
    ColumnIs(f, g, 5);
  }

  lemma Column6Is(f: Limbs, g: Limbs)
    ensures Column(f, g, 6) == f.h0 * g.h6 + 2 * (f.h1 * g.h5) + f.h2 * g.h4 + 2 * (f.h3 * g.h3) + f.h4 * g.h2
      + 2 * (f.h5 * g.h1) + f.h6 * g.h0 + 38 * (f.h7 * g.h9) + 19 * (f.h8 * g.h8) + 38 * (f.h9 * g.h7)
  {
    ColumnIs(f, g, 6);
  }

  lemma Column7Is(f: Limbs, g: Limbs)
    ensures Column(f, g, 7) == f.h0 * g.h7 + f.h1 * g.h6 + f.h2 * g.h5 + f.h3 * g.h4 + f.h4 * g.h3 + f.h5 * g.h2
      + f.h6 * g.h1 + f.h7 * g.h0 + 19 * (f.h8 * g.h9) + 19 * (f.h9 * g.h8)
  {
    ColumnIs(f, g, 7);
  }

  lemma Column8Is(f: Limbs, g: Limbs)
    ensures Column(f, g, 8) == f.h0 * g.h8 + 2 * (f.h1 * g.h7) + f.h2 * g.h6 + 2 * (f.h3 * g.h5) + f.h4 * g.h4
      + 2 * (f.h5 * g.h3) + f.h6 * g.h2 + 2 * (f.h7 * g.h1) + f.h8 * g.h0 + 38 * (f.h9 * g.h9)
  {
    ColumnIs(f, g, 8);
  }

  lemma Column9Is(f: Limbs, g: Limbs)
    ensures Column(f, g, 9) == f.h0 * g.h9 + f.h1 * g.h8 + f.h2 * g.h7 + f.h3 * g.h6 + f.h4 * g.h5 + f.h5 * g.h4
      + f.h6 * g.h3 + f.h7 * g.h2 + f.h8 * g.h1 + f.h9 * g.h0
  {
    ColumnIs(f, g, 9);
  }

  /** The ten columns of the product, before carrying. */
  function Product(f: Limbs, g: Limbs): Limbs {
    Limbs(Column(f, g, 0), Column(f, g, 1), Column(f, g, 2), Column(f, g, 3), Column(f, g, 4), Column(f, g, 5),
        Column(f, g, 6), Column(f, g, 7), Column(f, g, 8), Column(f, g, 9))
  }

  /** The columns are what the rows add up to. */
  lemma ProductColumn(f: Limbs, g: Limbs, k: nat)
    requires k < 10
    ensures Column(f, g, k) == At(Rows(f, g, 10), k)
  {
    ColumnIs(f, g, k);
    RowsAt(f, g, k);
    match k {
      case 0 =>
      case 1 =>
      case 2 =>
      case 3 =>
      case 4 =>
      case 5 =>
      case 6 =>
      case 7 =>
      case 8 =>
      case _ =>
    }
  }

  /** A column adds up the row contributions in the order of the first factor's limbs. */
  lemma RowsAt(f: Limbs, g: Limbs, k: nat)
    requires k < 10
    ensures At(Rows(f, g, 10), k) == At(Row(0, Times(f.h0, g)), k) + At(Row(1, Times(f.h1, g)), k)
      + At(Row(2, Times(f.h2, g)), k) + At(Row(3, Times(f.h3, g)), k) + At(Row(4, Times(f.h4, g)), k)
      + At(Row(5, Times(f.h5, g)), k) + At(Row(6, Times(f.h6, g)), k) + At(Row(7, Times(f.h7, g)), k)
      + At(Row(8, Times(f.h8, g)), k) + At(Row(9, Times(f.h9, g)), k)
  {
    RowsNext(f, g, 0, k);
    RowsNext(f, g, 1, k);
    RowsNext(f, g, 2, k);
    RowsNext(f, g, 3, k);
    RowsNext(f, g, 4, k);
    RowsNext(f, g, 5, k);
    RowsNext(f, g, 6, k);
    RowsNext(f, g, 7, k);
    RowsNext(f, g, 8, k);
    RowsNext(f, g, 9, k);
  }

  lemma RowsNext(f: Limbs, g: Limbs, n: nat, k: nat)
    requires n < 10 && k < 10
    ensures At(Rows(f, g, n + 1), k) == At(Rows(f, g, n), k) + At(Row(n, Times(At(f, n), g)), k)
    ensures At(Rows(f, g, 0), k) == 0
  {
  }

  lemma ProductRows(f: Limbs, g: Limbs)
    ensures Product(f, g) == Rows(f, g, 10)
  {
    ProductColumn(f, g, 0);
    ProductColumn(f, g, 1);
    ProductColumn(f, g, 2);
    ProductColumn(f, g, 3);
    ProductColumn(f, g, 4);
    ProductColumn(f, g, 5);
    ProductColumn(f, g, 6);
    ProductColumn(f, g, 7);
    ProductColumn(f, g, 8);
    ProductColumn(f, g, 9);
  }

  /** The product's columns stand for the product of the factors, modulo the prime. */
  lemma ProductValue(f: Limbs, g: Limbs) returns (k: int)
    ensures Val(Product(f, g)) + P * k == Val(f) * Val(g)
  {
    k := RowsValue(f, g, 10);
    PrefixAll(f);
    ProductRows(f, g);
  }
}
