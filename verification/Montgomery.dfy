/** The Montgomery ladder of curve25519-donna.c: fmonty computes the doubling and the differential
    addition of the Montgomery curve, and cmult steps through the bits of the scalar with them. */
module Montgomery {
  import opened Machine
  import opened Arith
  import opened Bytes
  import opened FieldLimbs
  import opened FieldMul
  import opened FieldBytes
  import opened FieldPower
  import opened FieldDecode
  import opened Donna
  import Contract

  function Sqr(a: int): int { a * a }

  /** The x-coordinate of twice the point at x : z, on v^2 = u^3 + 486662 u^2 + u. */
  function DoubleX(x: int, z: int): int { Sqr(Sqr(x) - Sqr(z)) }
  function DoubleZ(x: int, z: int): int { 4 * (x * z) * (Sqr(x) + 486662 * (x * z) + Sqr(z)) }

  /** The x-coordinate of the sum of the points at x : z and x' : z', whose difference is at q : 1. */
  function SumX(x: int, z: int, x': int, z': int): int { 4 * Sqr(x * x' - z * z') }
  function SumZ(x: int, z: int, x': int, z': int, q: int): int { 4 * Sqr(x * z' - z * x') * q }

  /** fsum */
  method FSum(output: Limbs, input: Limbs) returns (r: Limbs)
    requires Reduced26(output) && Reduced26(input)
    ensures Short(r) && Val(r) == Val(output) + Val(input)
  {
    r := Sum(output, input);
    SumValue(output, input);
  }

  /** fdifference, whose second operand is the minuend. */
  method FDifference(output: Limbs, input: Limbs) returns (r: Limbs)
    requires Reduced26(output) && Reduced26(input)
    ensures Short(r) && Val(r) == Val(input) - Val(output)
  {
    r := Limbs(input.h0 - output.h0, input.h1 - output.h1, input.h2 - output.h2, input.h3 - output.h3,
               input.h4 - output.h4, input.h5 - output.h5, input.h6 - output.h6, input.h7 - output.h7,
               input.h8 - output.h8, input.h9 - output.h9);
    ValIs(output);
    ValIs(input);
    ValIs(r);
  }

  /** fscalar_product by 121665, whose columns need no degree reduction. */
  method FScalarProduct(input: Limbs) returns (r: Limbs)
    requires Short(input)
    ensures Reduced26(r) && Congruent(Val(r), 121665 * Val(input))
  {
    var scaled := Times(121665, input);
    TimesValue(121665, input);
    var t := new Int64[19];
    Donna.Store(t, Columns10(scaled));
    FReduceCoefficients(t);
    r := Low10(t[..]);
  }

  /** Ten limbs as the low columns of a long number. */
  function Columns10(x: Limbs): (t: seq<Int64>)
    requires Bounded(x, 0x1000_0000_0000, 0x1000_0000_0000)
    ensures |t| == 19 && Low10(t) == x && forall k :: 0 <= k < 10 ==> Below(t[k] as int, ENTRY)
  {
    var t := [
      x.h0 as Int64, x.h1 as Int64, x.h2 as Int64, x.h3 as Int64, x.h4 as Int64, x.h5 as Int64, x.h6 as Int64,
      x.h7 as Int64, x.h8 as Int64, x.h9 as Int64, 0, 0, 0, 0, 0, 0, 0, 0, 0
    ];
    t
  }

  lemma CongruentSum(a: int, b: int, c: int, d: int)
    requires Congruent(a, b) && Congruent(c, d)
    ensures Congruent(a + c, b + d) && Congruent(a - c, b - d)
  {
    var j, k := a / P - b / P, c / P - d / P;
    assert a == b + P * j && c == d + P * k;
    CongruentBy(a + c, b + d, j + k);
    CongruentBy(a - c, b - d, j - k);
  }

  lemma Binomials(x: int, z: int)
    ensures Sqr(x + z) - Sqr(x - z) == 4 * (x * z)
    ensures (x + z) * (x - z) == Sqr(x) - Sqr(z)
    ensures Sqr(x + z) == Sqr(x) + 2 * (x * z) + Sqr(z)
  {
    Foil(x, z, x, z);
    Foil(x, -z, x, -z);
    Foil(x, z, x, -z);
  }

  lemma Foil(a: int, b: int, c: int, d: int)
    ensures (a + b) * (c + d) == a * c + a * d + b * c + b * d
    ensures (-b) * d == -(b * d) && a * (-d) == -(a * d) && a * c == c * a
  {
  }

  lemma CrossSums(x: int, z: int, x': int, z': int)
    ensures (x' + z') * (x - z) + (x + z) * (x' - z') == 2 * (x * x' - z * z')
    ensures (x' + z') * (x - z) - (x + z) * (x' - z') == 2 * (x * z' - z * x')
  {
    Foil(x', z', x, -z);
    Foil(x, z, x', -z');
    Foil(z', z, x, -z);
    Foil(x', z, z, -z);
    Foil(x, z, z', -z');
    assert x' * (-z) == -(z * x') && z' * (-z) == -(z * z') && z' * x == x * z' && x' * x == x * x';
    assert x * (-z') == -(x * z') && z * (-z') == -(z * z');
  }

  lemma SquareProduct(a: int, b: int)
    ensures Sqr(a) * Sqr(b) == Sqr(a * b)
  {
    MulAssoc(a, a, b * b);
    MulAssoc(a, b, b);
    MulAssoc(a, b, a * b);
    assert a * (b * b) == b * (a * b);
  }

  lemma SquareTwice(a: int)
    ensures Sqr(2 * a) == 4 * Sqr(a)
  {
    SquareProduct(2, a);
  }

  /** An x-coordinate x : z in limbs. */
  datatype Point = Point(x: Limbs, z: Limbs)

  predicate SmallLimbs(p: Point) { Reduced26(p.x) && Reduced26(p.z) }

  /** p stands for x : z modulo the prime. */
  predicate StandsFor(p: Point, x: int, z: int) {
    Congruent(Val(p.x), x) && Congruent(Val(p.z), z)
  }

  /** The doubled point. */
  predicate IsDouble(q: Point, p: Point) {
    StandsFor(q, DoubleX(Val(p.x), Val(p.z)), DoubleZ(Val(p.x), Val(p.z)))
  }

  /** The sum of the points at p and p', whose difference is at q : 1. */
  predicate IsSum(s: Point, p: Point, p': Point, q: Limbs) {
    StandsFor(s, SumX(Val(p.x), Val(p.z), Val(p'.x), Val(p'.z)),
              SumZ(Val(p.x), Val(p.z), Val(p'.x), Val(p'.z), Val(q)))
  }

  /** fmonty: twice the first point and the sum of the two, every limb below 2^26. */
  method FMonty(p: Point, pprime: Point, qmqp: Limbs) returns (twice: Point, total: Point)
    requires SmallLimbs(p) && SmallLimbs(pprime) && Reduced26(qmqp)
    ensures SmallLimbs(twice) && SmallLimbs(total) && IsDouble(twice, p) && IsSum(total, p, pprime, qmqp)
  {
    var sum := FSum(p.x, p.z);
    var difference := FDifference(p.z, p.x);
    total := Added(p, pprime, qmqp, sum, difference);
    twice := Doubled(p, sum, difference);
  }

  method Added(ghost p: Point, pprime: Point, qmqp: Limbs, sum: Limbs, difference: Limbs) returns (r: Point)
    requires SmallLimbs(pprime) && Reduced26(qmqp) && Short(sum) && Short(difference)
    requires Val(sum) == Val(p.x) + Val(p.z) && Val(difference) == Val(p.x) - Val(p.z)
    ensures SmallLimbs(r) && IsSum(r, p, pprime, qmqp)
  {
    var sumprime := FSum(pprime.x, pprime.z);
    var differenceprime := FDifference(pprime.z, pprime.x);
    var xxprime := FMul(sumprime, difference);
    var zzprime := FMul(sum, differenceprime);
    var total := FSum(xxprime, zzprime);
    var rest := FDifference(zzprime, xxprime);
    var x3 := FSquare(total);
    var zzzprime := FSquare(rest);
    var z3 := FMul(zzzprime, qmqp);
    r := Point(x3, z3);
    ghost var X, Z, X', Z' := Val(p.x), Val(p.z), Val(pprime.x), Val(pprime.z);
    CrossSums(X, Z, X', Z');
    CongruentSum(Val(xxprime), (X' + Z') * (X - Z), Val(zzprime), (X + Z) * (X' - Z'));
    CongruentSquare(Val(x3), Val(total), 2 * (X * X' - Z * Z'));
    CongruentSquare(Val(zzzprime), Val(rest), 2 * (X * Z' - Z * X'));
    SquareTwice(X * X' - Z * Z');
    SquareTwice(X * Z' - Z * X');
    CongruentProduct(Val(zzzprime), 4 * Sqr(X * Z' - Z * X'), Val(qmqp), Val(qmqp));
  }

  lemma CongruentSquare(r: int, a: int, b: int)
    requires Congruent(r, a * a) && Congruent(a, b)
    ensures Congruent(r, Sqr(b))
  {
    CongruentProduct(a, b, a, b);
  }

  method Doubled(ghost p: Point, sum: Limbs, difference: Limbs) returns (r: Point)
    requires Short(sum) && Short(difference)
    requires Val(sum) == Val(p.x) + Val(p.z) && Val(difference) == Val(p.x) - Val(p.z)
    ensures SmallLimbs(r) && IsDouble(r, p)
  {
    var xx := FSquare(sum);
    var zz := FSquare(difference);
    var x2 := FMul(xx, zz);
    var e := FDifference(zz, xx);
    var zzz := FScalarProduct(e);
    var total := FSum(zzz, xx);
    var z2 := FMul(e, total);
    r := Point(x2, z2);
    ghost var X, Z := Val(p.x), Val(p.z);
    Binomials(X, Z);
    CongruentSquare(Val(xx), X + Z, X + Z);
    CongruentSquare(Val(zz), X - Z, X - Z);
    CongruentProduct(Val(xx), Sqr(X + Z), Val(zz), Sqr(X - Z));
    SquareProduct(X + Z, X - Z);
    CongruentSum(Val(xx), Sqr(X + Z), Val(zz), Sqr(X - Z));
    ghost var m := 4 * (X * Z);
    CongruentProduct(121665, 121665, Val(e), m);
    CongruentSum(Val(zzz), 121665 * m, Val(xx), Sqr(X + Z));
    CongruentProduct(Val(e), m, Val(total), 121665 * m + Sqr(X + Z));
  }

  /** The bit pattern of a word as a number, and the word of a bit pattern. */
  function Pattern(x: Int32): nat { if x < 0 then x + 0x1_0000_0000 else x }

  function Signed(n: nat): Int32
    requires n < 0x1_0000_0000
  {
    if n < 0x8000_0000 then n else n - 0x1_0000_0000
  }

  /** a ^ b, one binary digit at a time. */
  function Xor(a: nat, b: nat): nat {
    if a == 0 && b == 0 then 0
    else 2 * Xor(a / 2, b / 2) + (if a % 2 == b % 2 then 0 else 1)
  }

  lemma {:induction false} XorBelow(a: nat, b: nat, k: nat)
    requires a < Pow2(k) && b < Pow2(k)
    ensures Xor(a, b) < Pow2(k)
  {
    if k > 0 && (a != 0 || b != 0) {
      XorBelow(a / 2, b / 2, k - 1);
    }
  }

  /** Exclusive or with a twice gives the number back. */
  lemma {:induction false} XorTwice(a: nat, b: nat)
    ensures Xor(a, Xor(a, b)) == b && Xor(b, Xor(a, b)) == a
    decreases a + b
  {
    if a != 0 || b != 0 {
      var bit := if a % 2 == b % 2 then 0 else 1;
      var x := Xor(a, b);
      assert x == 2 * Xor(a / 2, b / 2) + bit;
      assert x / 2 == Xor(a / 2, b / 2) && x % 2 == bit;
      XorTwice(a / 2, b / 2);
      assert a == 2 * (a / 2) + a % 2 && b == 2 * (b / 2) + b % 2;
    }
  }

  lemma {:induction false} XorZero(a: nat)
    ensures Xor(a, 0) == a
  {
    if a > 0 {
      XorZero(a / 2);
    }
  }

  /** One limb of swap_conditional: the difference in bits, masked, goes onto both. */
  method SwapLimb(a: Int32, b: Int32, iswap: int) returns (a': Int32, b': Int32)
    requires iswap == 0 || iswap == 1
    ensures (a', b') == if iswap == 1 then (b, a) else (a, b)
  {
    var swap := -iswap;
    var pa, pb := Pattern(a), Pattern(b);
    var x := Contract.Masked(swap, Xor(pa, pb));
    WordBound();
    XorBelow(pa, pb, 32);
    XorBelow(pa, x, 32);
    XorBelow(pb, x, 32);
    XorTwice(pa, pb);
    XorZero(pa);
    XorZero(pb);
    a' := Signed(Xor(pa, x));
    b' := Signed(Xor(pb, x));
  }

  lemma WordBound()
    ensures Pow2(32) == 0x1_0000_0000
  {
    BytePowers();
    Pow2Add(8, 24);
  }

  /** swap_conditional */
  method SwapConditional(a: Limbs, b: Limbs, iswap: int) returns (a': Limbs, b': Limbs)
    requires Reduced26(a) && Reduced26(b) && (iswap == 0 || iswap == 1)
    ensures (a', b') == if iswap == 1 then (b, a) else (a, b)
  {
    var a0, b0 := SwapLimb(a.h0, b.h0, iswap);
    var a1, b1 := SwapLimb(a.h1, b.h1, iswap);
    var a2, b2 := SwapLimb(a.h2, b.h2, iswap);
    var a3, b3 := SwapLimb(a.h3, b.h3, iswap);
    var a4, b4 := SwapLimb(a.h4, b.h4, iswap);
    var a5, b5 := SwapLimb(a.h5, b.h5, iswap);
    var a6, b6 := SwapLimb(a.h6, b.h6, iswap);
    var a7, b7 := SwapLimb(a.h7, b.h7, iswap);
    var a8, b8 := SwapLimb(a.h8, b.h8, iswap);
    var a9, b9 := SwapLimb(a.h9, b.h9, iswap);
    a' := Limbs(a0, a1, a2, a3, a4, a5, a6, a7, a8, a9);
    b' := Limbs(b0, b1, b2, b3, b4, b5, b6, b7, b8, b9);
  }
}
