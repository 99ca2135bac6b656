/** cmult and curve25519_donna: given the curve's point formulas, the ladder computes the
    x-coordinate of a multiple of the base point. */
module Ladder {
  import opened Machine
  import opened Arith
  import opened Bytes
  import opened FieldLimbs
  import opened FieldMul
  import opened FieldBytes
  import opened FieldPower
  import opened FieldDecode
  import opened Donna
  import opened Groups
  import opened Montgomery
  import Contract

  /** A group of points, and whether the projective x : z is the x-coordinate of a point. */
  datatype Curve<!G> = Curve(group: Group<G>, at: (G, int, int) -> bool)

  /** What the Montgomery formulas are known for: they take x-coordinates modulo the prime to the
      x-coordinates of doubles and of sums, when base, with the x-coordinate q, is the difference. */
  ghost predicate FormulaLaws<G(!new)>(c: Curve<G>, base: G, q: int) {
    && Abelian(c.group) && c.at(c.group.zero, 1, 0) && c.at(base, q, 1)
    && (forall p: G, x: int, z: int, x': int, z': int ::
          c.at(p, x, z) && Congruent(x, x') && Congruent(z, z') ==> c.at(p, x', z'))
    && (forall p: G, x: int, z: int :: c.at(p, x, z) ==> c.at(c.group.add(p, p), DoubleX(x, z), DoubleZ(x, z)))
    && (forall p: G, x: int, z: int, x': int, z': int ::
          c.at(p, x, z) && c.at(c.group.add(base, p), x', z')
          ==> c.at(c.group.add(p, c.group.add(base, p)), SumX(x, z, x', z'), SumZ(x, z, x', z', q)))
  }

  /** The same, folded: lemma FormulasAre opens it. */
  ghost predicate Formulas<G(!new)>(c: Curve<G>, base: G, q: int, fold: nat := 3) {
    if fold > 0 then Formulas(c, base, q, fold - 1) else FormulaLaws(c, base, q)
  }

  lemma {:induction false} FormulasAre<G(!new)>(c: Curve<G>, base: G, q: int, fold: nat := 3)
    requires Formulas(c, base, q, fold)
    ensures FormulaLaws(c, base, q)
  {
    if fold > 0 {
      FormulasAre(c, base, q, fold - 1);
    }
  }

  lemma {:induction false} FirstPoints<G(!new)>(c: Curve<G>, base: G, q: int, fold: nat := 3)
    requires Formulas(c, base, q, fold)
    ensures Abelian(c.group) && c.at(c.group.zero, 1, 0) && c.at(base, q, 1)
  {
    if fold > 0 {
      FirstPoints(c, base, q, fold - 1);
    }
  }

  /** x : z is the x-coordinate of m times the base point. */
  ghost predicate Multiple<G>(c: Curve<G>, base: G, m: int, x: int, z: int) {
    c.at(Groups.Times(c.group, m, base), x, z)
  }

  lemma MultipleCongruent<G(!new)>(c: Curve<G>, base: G, q: int, m: int, x: int, z: int, x': int, z': int)
    requires Formulas(c, base, q) && Multiple(c, base, m, x, z) && Congruent(x, x') && Congruent(z, z')
    ensures Multiple(c, base, m, x', z')
  {
    FormulasAre(c, base, q);
  }

  lemma MultipleDoubled<G(!new)>(c: Curve<G>, base: G, q: int, m: int, x: int, z: int)
    requires Formulas(c, base, q) && Multiple(c, base, m, x, z)
    ensures Multiple(c, base, m + m, DoubleX(x, z), DoubleZ(x, z))
  {
    FormulasAre(c, base, q);
    TimesAdd(c.group, m, m, base);
  }

  lemma MultipleAdded<G(!new)>(c: Curve<G>, base: G, q: int, m: int, x: int, z: int, x': int, z': int)
    requires Formulas(c, base, q) && Multiple(c, base, m, x, z) && Multiple(c, base, m + 1, x', z')
    ensures Multiple(c, base, m + m + 1, SumX(x, z, x', z'), SumZ(x, z, x', z', q))
    ensures SumX(x', z', x, z) == SumX(x, z, x', z') && SumZ(x', z', x, z, q) == SumZ(x, z, x', z', q)
  {
    FormulasAre(c, base, q);
    TimesNext(c.group, m, base);
    TimesAdd(c.group, m, m + 1, base);
    assert x' * x == x * x' && z' * z == z * z' && x' * z == z * x' && z' * x == x * z';
    SquareNegated(x * z' - z * x', x' * z - z' * x);
  }

  lemma SquareNegated(a: int, b: int)
    requires b == -a
    ensures Sqr(a) == Sqr(b)
  {
  }

  /** The ladder's two points: m and m + 1 times the base point. */
  datatype Rung = Rung(nq: Point, nqpq: Point)

  ghost predicate On<G>(c: Curve<G>, base: G, m: int, r: Rung) {
    && SmallLimbs(r.nq) && SmallLimbs(r.nqpq)
    && Multiple(c, base, m, Val(r.nq.x), Val(r.nq.z))
    && Multiple(c, base, m + 1, Val(r.nqpq.x), Val(r.nqpq.z))
  }

  /** The two calls of swap_conditional for a pair of points. */
  method SwapPoints(p: Point, p': Point, bit: int) returns (a: Point, b: Point)
    requires SmallLimbs(p) && SmallLimbs(p') && (bit == 0 || bit == 1)
    ensures (a, b) == if bit == 1 then (p', p) else (p, p')
  {
    var x, x' := SwapConditional(p.x, p'.x, bit);
    var z, z' := SwapConditional(p.z, p'.z, bit);
    a, b := Point(x, z), Point(x', z');
  }

  /** One turn of the inner loop: swap by the bit, step, swap back. */
  method LadderBit<G(!new)>(ghost c: Curve<G>, ghost base: G, ghost m: int, r: Rung, q: Limbs, bit: int)
    returns (s: Rung)
    requires Reduced26(q) && (bit == 0 || bit == 1) && Formulas(c, base, Val(q)) && On(c, base, m, r)
    ensures On(c, base, 2 * m + bit, s)
  {
    var nq, nqpq := SwapPoints(r.nq, r.nqpq, bit);
    var nq2, nqpq2 := FMonty(nq, nqpq, q);
    LadderStep(c, base, Val(q), m, bit, Val(nq.x), Val(nq.z), Val(nqpq.x), Val(nqpq.z),
               Val(nq2.x), Val(nq2.z), Val(nqpq2.x), Val(nqpq2.z));
    nq2, nqpq2 := SwapPoints(nq2, nqpq2, bit);
    s := Rung(nq2, nqpq2);
  }

  /** From m + bit and its neighbour, the double and the sum, whichever of the two comes first. */
  lemma LadderStep<G(!new)>(c: Curve<G>, base: G, q: int, m: int, bit: int, x: int, z: int, x': int, z': int,
                            x2: int, z2: int, x3: int, z3: int)
    requires Formulas(c, base, q) && (bit == 0 || bit == 1)
    requires Multiple(c, base, m + bit, x, z) && Multiple(c, base, m + 1 - bit, x', z')
    requires Congruent(x2, DoubleX(x, z)) && Congruent(z2, DoubleZ(x, z))
    requires Congruent(x3, SumX(x, z, x', z')) && Congruent(z3, SumZ(x, z, x', z', q))
    ensures Multiple(c, base, 2 * (m + bit), x2, z2) && Multiple(c, base, 2 * m + 1, x3, z3)
  {
    MultipleDoubled(c, base, q, m + bit, x, z);
    MultipleCongruent(c, base, q, (m + bit) + (m + bit), DoubleX(x, z), DoubleZ(x, z), x2, z2);
    if bit == 0 {
      MultipleAdded(c, base, q, m, x, z, x', z');
    } else {
      MultipleAdded(c, base, q, m, x', z', x, z);
    }
    MultipleCongruent(c, base, q, m + m + 1, SumX(x, z, x', z'), SumZ(x, z, x', z', q), x3, z3);
  }

  /** The inner loop: the eight bits of one byte, from the top. */
  method LadderByte<G(!new)>(ghost c: Curve<G>, ghost base: G, ghost m: int, r: Rung, q: Limbs, next: Byte)
    returns (s: Rung)
    requires Reduced26(q) && Formulas(c, base, Val(q)) && On(c, base, m, r)
    ensures On(c, base, 256 * m + next, s)
  {
    s := r;
    var byte: Byte := next;
    ghost var at := m;
    var j := 0;
    while j < 8
      invariant j <= 8 && 256 * at + byte == Doubling(256 * m + next, j)
      invariant On(c, base, at, s)
    {
      var bit := byte / 128;
      s := LadderBit(c, base, at, s, q, bit);
      byte := byte * 2 % 256;
      at := 2 * at + bit;
      j := j + 1;
    }
    EightDoublings(256 * m + next);
    assert at == 256 * m + next;
  }

  function Doubling(v: int, j: nat): int { if j == 0 then v else 2 * Doubling(v, j - 1) }

  lemma EightDoublings(v: int)
    ensures Doubling(v, 8) == 256 * v
  {
    assert Doubling(v, 1) == 2 * v;
    assert Doubling(v, 2) == 4 * v;
    assert Doubling(v, 4) == 16 * v;
    assert Doubling(v, 6) == 64 * v;
  }

  /** cmult: the ladder over all bytes of the scalar, the last byte first. */
  method CMult<G(!new)>(ghost c: Curve<G>, ghost base: G, n: seq<Byte>, q: Limbs) returns (x: Limbs, z: Limbs)
    requires |n| == 32 && Reduced26(q) && Formulas(c, base, Val(q))
    ensures Reduced26(x) && Reduced26(z) && Multiple(c, base, Number(n), Val(x), Val(z))
  {
    var one := Small(1);
    var zero := Small(0);
    var r := Rung(Point(one, zero), Point(q, one));
    FirstRung(c, base, q, one, zero);
    var i := 0;
    while i < 32
      invariant i <= 32 && On(c, base, From(n, 32 - i), r)
    {
      ghost var m := From(n, 32 - i);
      var next := n[31 - i];
      r := LadderByte(c, base, m, r, q, next);
      assert From(n, 31 - i) == 256 * m + next;
      i := i + 1;
    }
    x, z := r.nq.x, r.nq.z;
  }

  /** A number below 2^26 in limbs. */
  method Small(v: int) returns (x: Limbs)
    requires 0 <= v < 0x4000000
    ensures Reduced26(x) && Val(x) == v
  {
    x := Limbs(v, 0, 0, 0, 0, 0, 0, 0, 0, 0);
    ValIs(x);
  }

  lemma FirstRung<G(!new)>(c: Curve<G>, base: G, q: Limbs, one: Limbs, zero: Limbs)
    requires Formulas(c, base, Val(q)) && Val(one) == 1 && Val(zero) == 0
    requires Reduced26(q) && Reduced26(one) && Reduced26(zero)
    ensures On(c, base, 0, Rung(Point(one, zero), Point(q, one)))
  {
    FirstPoints(c, base, Val(q));
    TimesOne(c.group, base);
  }

  /** The number from byte start on, less its low bits. */
  function Rest(s: seq<Byte>, start: nat, p: int, fold: nat := 3): int
    requires start <= |s| && p > 0
  {
    if fold > 0 then Rest(s, start, p, fold - 1) else From(s, start) / p
  }

  lemma {:induction false} RestIs(s: seq<Byte>, start: nat, p: int, fold: nat := 3)
    requires start <= |s| && p > 0
    ensures Rest(s, start, p, fold) == From(s, start) / p
  {
    if fold > 0 {
      RestIs(s, start, p, fold - 1);
    }
  }

  lemma DivShift(p: int, k: int, e: int)
    requires p > 0 && e >= 0
    ensures (p * k + e) / p == k + e / p
  {
    MulDist(p, k, e / p);
    QuotientUnique(p * k + e, p, k + e / p, e % p);
  }

  lemma ModShift(w: int, k: int, f: int)
    requires 0 <= f < w
    ensures (w * k + f) % w == f
  {
    QuotientUnique(w * k + f, w, k, f);
  }

  /** A window of w values above p, in a number a of which l is the part that was loaded. */
  lemma Window(a: int, l: int, h: int, low: int, a': int, p: int, w: int, c: int, r: int, p': int)
    requires p > 0 && w > 0 && c > 0 && r > 0 && p' > 0
    requires a == l + (p * w) * (c * h) && 0 <= l && a == low + r * a' && 0 <= low < r && p * w == r * p'
    ensures a / p == l / p % w + w * (a' / p')
  {
    var q, rest := a' / p', a' % p';
    var e := low + r * rest;
    assert a == p * (w * q) + e by {
      MulDist(r, p' * q, rest);
      MulAssoc(r, p', q);
      MulAssoc(p, w, q);
    }
    assert 0 <= e < p * w by {
      MulMonotone(rest, p' - 1, r);
      MulMonotone(0, rest, r);
      MulDist(r, p', -1);
    }
    DivShift(p, w * q, e);
    assert l == p * (w * (q - c * h)) + e by {
      MulDist(p * w, q, -(c * h));
      MulAssoc(p, w, q - c * h);
      MulAssoc(p, w, q);
    }
    DivShift(p, w * (q - c * h), e);
    assert 0 <= e / p < w by { QuotientBelow(e, p, w); }
    ModShift(w, q - c * h, e / p);
  }

  /** One use of the macro of fexpand: four bytes, shifted and masked. The next use starts further
      bytes on, at the weight p'. */
  method Field(s: seq<Byte>, start: nat, p: int, w: int, ghost c: int, ghost bytes: nat, ghost p': int)
    returns (limb: int)
    requires |s| == 32 && start + 4 <= 32 && (bytes == 3 || bytes == 4)
    requires p > 0 && w > 0 && c > 0 && p' > 0 && p * w * c == 0x1_0000_0000
    requires p * w == (if bytes == 3 then 0x1000000 else 0x1_0000_0000) * p'
    ensures 0 <= limb < w && Rest(s, start, p) == limb + w * Rest(s, start + bytes, p')
  {
    var word := Load4(s, start);
    limb := word / p % w;
    RestIs(s, start, p);
    RestIs(s, start + bytes, p');
    Loaded4(s, start, bytes);
    var low := if bytes == 3 then Little3(s, start) else word;
    MulAssoc(p * w, c, From(s, start + 4));
    Window(From(s, start), word, From(s, start + 4), low, From(s, start + bytes), p, w, c,
           if bytes == 3 then 0x1000000 else 0x1_0000_0000, p');
  }

  lemma Loaded4(s: seq<Byte>, start: nat, bytes: nat)
    requires start + 4 <= |s| && (bytes == 3 || bytes == 4)
    ensures From(s, start) == Little4(s, start) + 0x1_0000_0000 * From(s, start + 4)
    ensures bytes == 3 ==> From(s, start) == Little3(s, start) + 0x1000000 * From(s, start + 3)
    ensures 0 <= Little3(s, start) < 0x1000000 && 0 <= Little4(s, start) < 0x1_0000_0000
  {
    assert From(s, start) == s[start] + 256 * From(s, start + 1);
    assert From(s, start + 1) == s[start + 1] + 256 * From(s, start + 2);
    assert From(s, start + 2) == s[start + 2] + 256 * From(s, start + 3);
    assert From(s, start + 3) == s[start + 3] + 256 * From(s, start + 4);
  }

  /** fexpand: 32 bytes as limbs, without the top bit. */
  method FExpand(s: seq<Byte>) returns (output: Limbs)
    requires |s| == 32
    ensures Reduced26(output) && Val(output) == Number(s) % TOP
  {
    var h0 := Field(s, 0, 1, 0x4000000, 64, 3, 4);
    var h1 := Field(s, 3, 4, 0x2000000, 32, 3, 8);
    var h2 := Field(s, 6, 8, 0x4000000, 8, 3, 32);
    var h3 := Field(s, 9, 32, 0x2000000, 4, 3, 64);
    var h4 := Field(s, 12, 64, 0x4000000, 1, 4, 1);
    var h5 := Field(s, 16, 1, 0x2000000, 128, 3, 2);
    var h6 := Field(s, 19, 2, 0x4000000, 32, 3, 8);
    var h7 := Field(s, 22, 8, 0x2000000, 16, 3, 16);
    var h8 := Field(s, 25, 16, 0x4000000, 4, 3, 64);
    var h9 := Field(s, 28, 64, 0x2000000, 2, 3, 128);
    output := Limbs(h0, h1, h2, h3, h4, h5, h6, h7, h8, h9);
    RestIs(s, 0, 1);
    Telescope(output, Rest(s, 3, 4), Rest(s, 6, 8), Rest(s, 9, 32), Rest(s, 12, 64), Rest(s, 16, 1), Rest(s, 19, 2),
              Rest(s, 22, 8), Rest(s, 25, 16), Rest(s, 28, 64), Rest(s, 31, 128), Number(s));
  }

  /** 2^255, above which the top bit lies. */
  const TOP: int := 0x8000000000000000000000000000000000000000000000000000000000000000

  lemma Telescope(x: Limbs, n1: int, n2: int, n3: int, n4: int, n5: int, n6: int, n7: int, n8: int, n9: int, n10: int,
      n: int)
    requires Settled(x) && n == x.h0 + 0x4000000 * n1 && n1 == x.h1 + 0x2000000 * n2 && n2 == x.h2 + 0x4000000 * n3
    requires n3 == x.h3 + 0x2000000 * n4 && n4 == x.h4 + 0x4000000 * n5 && n5 == x.h5 + 0x2000000 * n6
    requires n6 == x.h6 + 0x4000000 * n7 && n7 == x.h7 + 0x2000000 * n8 && n8 == x.h8 + 0x4000000 * n9
    requires n9 == x.h9 + 0x2000000 * n10
    ensures Val(x) == n % TOP
  {
    ValIs(x);
    SettledWeighted(x);
    assert n == TOP * n10 + Weighted(x);
    QuotientUnique(n, TOP, n10, Weighted(x));
  }

  /** The scalar that curve25519_donna works with: a multiple of 8 with bit 254 set and bit 255 clear. */
  method Clamp(secret: seq<Byte>) returns (e: seq<Byte>)
    requires |secret| == 32
    ensures |e| == 32 && e[1..31] == secret[1..31]
    ensures e[0] == secret[0] - secret[0] % 8 && e[31] == 64 + secret[31] % 64
  {
    e := secret[0 := secret[0] / 8 * 8];
    var top := e[31] % 128;
    e := e[31 := if top / 64 == 0 then top + 64 else top];
  }

  /** curve25519_donna: the canonical bytes of the x-coordinate of the clamped scalar's multiple. */
  method Curve25519Donna<G(!new)>(ghost c: Curve<G>, ghost base: G, secret: seq<Byte>, basepoint: seq<Byte>)
    returns (mypublic: seq<Byte>, ghost e: seq<Byte>)
    requires |secret| == 32 && |basepoint| == 32 && Formulas(c, base, Number(basepoint) % TOP)
    ensures |e| == 32 && e[1..31] == secret[1..31]
    ensures e[0] == secret[0] - secret[0] % 8 && e[31] == 64 + secret[31] % 64
    ensures exists x, z :: Multiple(c, base, Number(e), x, z) && mypublic == Canonical(x * Power(z, P - 2))
  {
    var scalar := Clamp(secret);
    e := scalar;
    var bp := FExpand(basepoint);
    var x, z := CMult(c, base, scalar, bp);
    var zmone := CRecip(z);
    var product := FMul(x, zmone);
    CongruentProduct(Val(x), Val(x), Val(zmone), Power(Val(z), P - 2));
    mypublic := Contract.FContract(product);
    assert Multiple(c, base, Number(e), Val(x), Val(z));
  }
}
