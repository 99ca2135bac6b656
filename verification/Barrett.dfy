/** Barrett reduction with truncated products, and the reduction context that
    bi_set_mod prepares (crypto/bigint.c). */
module Barrett {
  import opened Arith
  import opened Digits
  import opened Bigint
  import opened LongDivision
  import opened Multiplication

  /** The longest number: the C field `size` is a short. */
  const MaxSize: int := 0x7FFF

  /** The skipped columns are part of the product. */
  lemma {:induction false} SkippedLess(a: seq<Comp>, b: seq<Comp>, outer: nat, i: nat)
    requires i <= |b|
    ensures Skipped(a, b, outer, i) <= Val(a) * Val(b[..i])
    ensures i == |b| ==> Skipped(a, b, outer, i) <= Val(a) * Val(b)
  {
    if i == 0 {
      assert b[..0] == [];
    } else {
      SkippedLess(a, b, outer, i - 1);
      ValSnoc(b, i - 1);
      assert b[..i - 1 + 1] == b[..i];
      var j := FirstColumn(|a|, i - 1, outer);
      ValSplit(a, j);
      MulMonotone(0, Val(a[j..]), Pow(j));
      SkippedLessArith(Pow(i - 1), Val(a), Val(a[..j]), b[i - 1], Val(b[..i - 1]), Val(b[..i]),
                       SkippedRow(a, b[i - 1], outer, i - 1));
    }
    assert i == |b| ==> b[..i] == b;
  }

  lemma SkippedLessArith(p: int, a: int, low: int, y: Comp, below: int, below': int, row: int)
    requires p > 0 && low <= a && row == low * y && below' == below + p * y
    ensures p * row <= a * below' - a * below
  {
    MulMonotone(low, a, y);
    MulMonotone(row, a * y, p);
    assert a * below' == a * below + p * (a * y);
  }

  /** What regular_multiply computes when the columns below outer - 1 are left out. */
  function TruncatedProduct(a: seq<Comp>, b: seq<Comp>, outer: nat): nat {
    SkippedLess(a, b, outer, |b|);
    Val(a) * Val(b) - Skipped(a, b, outer, |b|)
  }

  /** The number q2 of the reduction: the high parts of x and of the stored
      reciprocal mu, multiplied without the columns below k - 1. */
  function HighProduct(x: seq<Comp>, mu: seq<Comp>, k: nat): nat
    requires k >= 1 && Trimmed(x)
  {
    TruncatedProduct(ShiftDown(x, k - 1), mu, k - 1)
  }

  /** The estimate q3 of floor(x / m): q2 divided by B^(k+1), rounded down. */
  ghost function EstimateQuotient(x: seq<Comp>, mu: seq<Comp>, k: nat): (q: nat)
    requires k >= 1 && Trimmed(x)
    ensures IsQuotient(q, HighProduct(x, mu, k), Pow(k + 1))
  {
    QuotientIs(HighProduct(x, mu, k), Pow(k + 1));
    var q: nat :| IsQuotient(q, HighProduct(x, mu, k), Pow(k + 1));
    q
  }

  /** The estimate never exceeds the quotient. */
  lemma EstimateUpper(x: nat, m: int, n: int, a: int, c: int, mu: int, q1: int, q2: int, q3: nat)
    requires a > 0 && c > 0 && m > 0 && n == a * c
    requires q1 * a <= x && 0 <= mu && mu * m <= n && q3 * c <= q2 <= q1 * mu
    ensures q3 * m <= x
  {
    MulMonotone(1, a, m);
    MulMonotone(q3 * c, q1 * mu, a * m);
    assert (q3 * c) * (a * m) == (q3 * m) * n;
    assert (q1 * mu) * (a * m) == (q1 * a) * (mu * m);
    MulMonotone(0, mu, m);
    MulMonotone(q1 * a, x, mu * m);
    MulMonotone(mu * m, n, x);
    MulMonotone(1, a, c);
    if q3 * m > x {
      MulStrict(x, q3 * m, n);
    }
  }

  /** If (q1 + 1)(mu + 1) is at most t * c then x is below t * m. */
  lemma EstimateLower(x: nat, m: int, n: int, a: int, c: int, mu: nat, q1: nat, t: nat)
    requires a > 0 && c > 0 && m > 0 && n == a * c
    requires x < (q1 + 1) * a && n < (mu + 1) * m && (q1 + 1) * (mu + 1) <= t * c
    ensures x < t * m
  {
    MulMonotone(1, a, c);
    MulStrict(x, (q1 + 1) * a, n);
    MulMonotone(0, q1 + 1, a);
    MulMonotone(n, (mu + 1) * m, (q1 + 1) * a);
    assert ((q1 + 1) * a) * ((mu + 1) * m) == ((q1 + 1) * (mu + 1)) * (a * m);
    MulMonotone(1, a, m);
    MulMonotone((q1 + 1) * (mu + 1), t * c, a * m);
    assert (t * c) * (a * m) == (t * m) * n;
    if x >= t * m {
      MulMonotone(t * m, x, n);
    }
  }

  /** What bi_set_mod computes for a modulus of k components. */
  ghost predicate Reciprocal(m: seq<Comp>, mu: seq<Comp>) {
    && 1 <= |m| <= MaxSize && Trimmed(m) && Val(m) > 0
    && Trimmed(mu) && IsQuotient(Val(mu), Pow(2 * |m|), Val(m))
  }

  /** The arithmetic of one reduction: x below n = a * c is reduced modulo m with the
      reciprocal mu; q1 is x's high part, sk what the truncated product q2 lacks, and
      q3 its high part. */
  ghost predicate Reduction(x: int, m: int, n: int, a: int, c: int, mu: int, q1: int, sk: int, q2: int, q3: int) {
    && 0 < a <= m && 0 < c && n == a * c
    && 0 <= q1 < c && IsQuotient(q1, x, a)
    && 0 <= mu <= c && IsQuotient(mu, n, m)
    && q2 + sk == q1 * mu && 0 <= sk < c
    && 0 <= q3 && IsQuotient(q3, q2, c)
  }

  /** The estimate is at most the quotient, and at least the quotient minus three. */
  lemma ReductionWithinThree(x: int, m: int, n: int, a: int, c: int, mu: int, q1: int, sk: int, q2: int, q3: int)
    requires Reduction(x, m, n, a, c, mu, q1, sk, q2, q3)
    ensures q3 * m <= x < (q3 + 4) * m
  {
    MulMonotone(0, q1, a);
    EstimateUpper(x, m, n, a, c, mu, q1, q2, q3);
    ProductSlack(q1, mu, q2, sk, q3, c, 4);
    EstimateLower(x, m, n, a, c, mu, q1, q3 + 4);
  }

  /** With room below c, it is at least the quotient minus one. */
  lemma ReductionWithinOne(x: int, m: int, n: int, a: int, c: int, mu: int, q1: int, sk: int, q2: int, q3: int)
    requires Reduction(x, m, n, a, c, mu, q1, sk, q2, q3)
    requires q1 + mu + 1 + sk <= c
    ensures x < (q3 + 2) * m
  {
    MulMonotone(0, q1, a);
    ProductSlack(q1, mu, q2, sk, q3, c, 2);
    EstimateLower(x, m, n, a, c, mu, q1, q3 + 2);
  }

  lemma ProductSlack(q1: nat, mu: nat, q2: int, sk: int, q3: nat, c: int, t: int)
    requires q2 + sk == q1 * mu && q2 < (q3 + 1) * c
    requires sk + q1 + mu + 1 <= (t - 1) * c
    ensures (q1 + 1) * (mu + 1) <= (q3 + t) * c
  {
    assert (q1 + 1) * (mu + 1) == q1 * mu + q1 + mu + 1;
    assert (q3 + t) * c == (q3 + 1) * c + (t - 1) * c;
  }

  /** The code's numbers form a reduction. */
  lemma ReductionOf(x: seq<Comp>, m: seq<Comp>, mu: seq<Comp>, q3: nat)
    returns (n: int, a: int, c: int, q1: int, sk: int, q2: int)
    requires Trimmed(x) && |x| <= 2 * |m| && Reciprocal(m, mu)
    requires IsQuotient(q3, HighProduct(x, mu, |m|), Pow(|m| + 1))
    ensures Reduction(Val(x), Val(m), n, a, c, Val(mu), q1, sk, q2, q3)
    ensures q1 == Val(ShiftDown(x, |m| - 1)) && sk == Skipped(ShiftDown(x, |m| - 1), mu, |m| - 1, |mu|)
    ensures c == Pow(|m| + 1)
  {
    var k := |m|;
    n, a, c := Pow(2 * k), Pow(k - 1), Pow(k + 1);
    PowAdd(k - 1, k + 1);
    ModulusBound(m);
    ReciprocalBound(Val(mu), Val(m), a, c, n);
    HighPartBound(x, k);
    q1 := Val(ShiftDown(x, k - 1));
    sk, q2 := ProductParts(ShiftDown(x, k - 1), mu, k);
  }

  lemma ProductParts(high: seq<Comp>, mu: seq<Comp>, k: nat) returns (sk: int, q2: int)
    requires 1 <= k <= MaxSize
    ensures q2 == TruncatedProduct(high, mu, k - 1) && sk == Skipped(high, mu, k - 1, |mu|)
    ensures q2 + sk == Val(high) * Val(mu) && 0 <= sk < Pow(k + 1)
  {
    sk, q2 := Skipped(high, mu, k - 1, |mu|), TruncatedProduct(high, mu, k - 1);
    SkippedSmall(high, mu, k);
  }

  lemma HighPartBound(x: seq<Comp>, k: nat)
    requires Trimmed(x) && 1 <= k && |x| <= 2 * k
    ensures Val(ShiftDown(x, k - 1)) < Pow(k + 1)
  {
    PowMonotone(|ShiftDown(x, k - 1)|, k + 1);
  }

  lemma ModulusBound(m: seq<Comp>)
    requires Trimmed(m) && Val(m) > 0
    ensures Pow(|m| - 1) <= Val(m)
  {
    TopNotZero(m);
    ValTop(m);
    MulMonotone(1, m[|m| - 1], Pow(|m| - 1));
  }

  lemma ReciprocalBound(mu: int, m: int, a: int, c: int, n: int)
    requires 0 <= mu && 0 < a <= m && 0 < c && n == a * c && mu * m <= n
    ensures mu <= c
  {
    MulMonotone(a, m, mu);
    if mu > c {
      MulStrict(c, mu, a);
    }
  }

  lemma SkippedSmall(a: seq<Comp>, mu: seq<Comp>, k: nat)
    requires 1 <= k <= MaxSize
    ensures Skipped(a, mu, k - 1, |mu|) < Pow(k + 1)
  {
    SkippedBound(a, mu, k - 1, |mu|);
    if k > 1 {
      MulMonotone(k - 2, 0xFFFF_FFFF, Pow(k - 1));
    }
  }

  /** q3 * m reaches x within four times m, from below. */
  lemma EstimateRange(x: seq<Comp>, m: seq<Comp>, mu: seq<Comp>, q3: nat)
    requires Trimmed(x) && |x| <= 2 * |m| && Reciprocal(m, mu)
    requires IsQuotient(q3, HighProduct(x, mu, |m|), Pow(|m| + 1))
    ensures q3 * Val(m) <= Val(x) < (q3 + 4) * Val(m)
  {
    var n, a, c, q1, sk, q2 := ReductionOf(x, m, mu, q3);
    ReductionWithinThree(Val(x), Val(m), n, a, c, Val(mu), q1, sk, q2, q3);
  }

  /** The estimate is at most the quotient, and at least the quotient minus three. */
  lemma EstimateWithinThree(x: seq<Comp>, m: seq<Comp>, mu: seq<Comp>)
    requires Trimmed(x) && |x| <= 2 * |m| && Reciprocal(m, mu)
    ensures var q3 := EstimateQuotient(x, mu, |m|);
            Val(x) / Val(m) - 3 <= q3 <= Val(x) / Val(m)
  {
    var q3 := EstimateQuotient(x, mu, |m|);
    EstimateRange(x, m, mu, q3);
    QuotientWithin(Val(x), Val(m), q3);
  }

  lemma QuotientWithin(x: nat, m: int, q3: nat)
    requires m > 0 && q3 * m <= x < (q3 + 4) * m
    ensures x / m - 3 <= q3 <= x / m
  {
    QuotientIs(x, m);
    if q3 > x / m {
      MulMonotone(x / m + 1, q3, m);
    }
    if x / m > q3 + 3 {
      MulMonotone(q3 + 4, x / m, m);
    }
  }

  /** When the two high parts leave room below B^(k+1), the estimate is off by at
      most one. */
  lemma EstimateWithinOneWhenRoom(x: seq<Comp>, m: seq<Comp>, mu: seq<Comp>)
    requires Trimmed(x) && |x| <= 2 * |m| && Reciprocal(m, mu)
    requires Val(ShiftDown(x, |m| - 1)) + Val(mu) + 1 + Skipped(ShiftDown(x, |m| - 1), mu, |m| - 1, |mu|) <= Pow(|m| + 1)
    ensures Val(x) < (EstimateQuotient(x, mu, |m|) + 2) * Val(m)
  {
    RoomForOne(x, m, mu, EstimateQuotient(x, mu, |m|));
  }

  lemma RoomForOne(x: seq<Comp>, m: seq<Comp>, mu: seq<Comp>, q3: nat)
    requires Trimmed(x) && |x| <= 2 * |m| && Reciprocal(m, mu)
    requires IsQuotient(q3, HighProduct(x, mu, |m|), Pow(|m| + 1))
    requires Val(ShiftDown(x, |m| - 1)) + Val(mu) + 1 + Skipped(ShiftDown(x, |m| - 1), mu, |m| - 1, |mu|) <= Pow(|m| + 1)
    ensures Val(x) < (q3 + 2) * Val(m)
  {
    var n, a, c, q1, sk, q2 := ReductionOf(x, m, mu, q3);
    ReductionWithinOne(Val(x), Val(m), n, a, c, Val(mu), q1, sk, q2, q3);
  }

  /** The reduction state bi_set_mod stores in the session: a modulus, its
      normalised multiple for bi_divide, and its reciprocal for Barrett. */
  class Context {
    const mod: Bigint
    const normalisedMod: Bigint
    const mu: Bigint

    ghost predicate Ready()
      reads mod, normalisedMod, mu
    {
      && mod != normalisedMod && mod != mu && normalisedMod != mu
      && Reciprocal(mod.comps, mu.comps)
      && NormalisedModulus(mod.comps, normalisedMod.comps)
    }

    /** bi_set_mod. The source computes top + 1 in 32 bits, hence the last requires. */
    constructor SetMod(bim: Bigint)
      requires Trimmed(bim.comps) && |bim.comps| <= MaxSize && bim.Value() > 0
      requires bim.comps[|bim.comps| - 1] < B - 1
      modifies bim
      ensures Ready() && mod == bim && fresh(normalisedMod) && fresh(mu)
      ensures bim.comps == old(bim.comps)
    {
      TopNotZero(bim.comps);
      var k := |bim.comps|;
      var d := Normaliser(bim.comps[k - 1]);
      var scaled := IntMultiply(bim, d);
      var radix := new Bigint([0, 1]);
      LeftShift(radix, 2 * k - 1);
      RadixPower(k);
      var reciprocal := Divide(radix, bim, null, false);
      QuotientIs(Pow(2 * k), Val(bim.comps));
      mod, normalisedMod, mu := bim, scaled, reciprocal;
    }
  }

  lemma RadixPower(k: nat)
    requires k >= 1
    ensures Pow(2 * k - 1) * Val([0, 1]) == Pow(2 * k)
  {
    assert [0, 1][1..] == [1];
    ValSingle(1);
    assert Val([0, 1]) == B;
  }

  /** The subtraction of the low parts recovers the whole difference. */
  lemma DifferenceRecovered(x: nat, y: nat, p: int, xl: nat, yl: nat, xh: int, yh: int)
    requires p > 0 && 0 <= x - y < p && xl < p && yl < p
    requires x == xl + p * xh && y == yl + p * yh
    ensures x - y == xl - yl + if xl < yl then p else 0
  {
    var d := xh - yh;
    assert x - y == p * d + (xl - yl);
    if d >= 2 {
      MulMonotone(2, d, p);
    } else if d <= -1 {
      MulMonotone(d, -1, p);
    }
  }

  /** What bi_subtract makes of the cut operands in a Barrett reduction. */
  lemma CutDifference(x: seq<Comp>, r2: seq<Comp>, n: nat, y: int, yh: int)
    requires |x| >= 1 && 0 <= y && 0 <= Val(x) - y < Pow(n)
    requires |r2| <= n && Val(r2) + Pow(n) * yh == y
    ensures var s := |CutTo(x, n)|; var xl, yl := Val(CutTo(x, n)), Val(Resize(r2, s));
            Val(x) - y == xl - yl + if xl < yl then Pow(s) else 0
  {
    PowMonotone(|r2|, n);
    if |x| > n {
      var xh := CutToValue(x, n);
      DifferenceRecovered(Val(x), y, Pow(n), Val(CutTo(x, n)), Val(r2), xh, yh);
    } else {
      PowMonotone(|x|, n);
      NoHighPart(Pow(n), Val(r2), yh, y);
      if |r2| > |x| {
        ValHighZero(r2, |x|);
      }
    }
  }

  lemma NoHighPart(p: int, low: int, high: int, y: int)
    requires 0 <= low < p && 0 <= y < p && low + p * high == y
    ensures low == y
  {
    if high >= 1 {
      MulMonotone(1, high, p);
    } else if high <= -1 {
      MulMonotone(high, -1, p);
    }
  }

  /** Four times the modulus still fits k + 1 components. */
  lemma FourModuli(m: int, k: nat, x: int, y: int, q: int)
    requires 0 < m < Pow(k) && y == q * m && y <= x < (q + 4) * m
    ensures x - y < 4 * m && x - y < Pow(k + 1)
    ensures (q + 2) * m == y + 2 * m && (q + 1) * m == y + m
  {
    assert (q + 4) * m == q * m + 4 * m;
  }

  /** The estimate q3, by the outer-truncated multiply. */
  method Estimate(bi: Bigint, mu: Bigint, k: nat) returns (q3: Bigint)
    requires k >= 1 && Trimmed(bi.comps) && Trimmed(mu.comps)
    ensures fresh(q3) && Trimmed(q3.comps)
    ensures q3.Value() == EstimateQuotient(bi.comps, mu.comps, k)
  {
    var q1 := Clone(bi);
    RightShift(q1, k - 1);
    q3 := MultiplyHigh(q1, mu, k);
    EstimateIs(bi.comps, mu.comps, k, q3.Value());
  }

  /** The outer-truncated product, shifted down. */
  method MultiplyHigh(q1: Bigint, mu: Bigint, k: nat) returns (q3: Bigint)
    requires k >= 1 && Trimmed(q1.comps) && Trimmed(mu.comps)
    ensures fresh(q3) && Trimmed(q3.comps)
    ensures IsQuotient(q3.Value(), TruncatedProduct(q1.comps, mu.comps, k - 1), Pow(k + 1))
  {
    ghost var unused: int;
    q3, unused := RegularMultiply(q1, mu, 0, k - 1);
    assert q3.Value() == TruncatedProduct(q1.comps, mu.comps, k - 1);
    RightShift(q3, k + 1);
  }

  /** The difference x - q3 * m, computed on the low n components only, which loses
      nothing. */
  method SubtractEstimate(bi: Bigint, q3: Bigint, bim: Bigint, n: nat)
    requires Trimmed(bi.comps) && Trimmed(q3.comps) && Trimmed(bim.comps) && n >= 1
    requires 0 <= bi.Value() - q3.Value() * bim.Value() < Pow(n)
    modifies bi
    ensures Trimmed(bi.comps)
    ensures bi.Value() == old(bi.Value()) - old(q3.Value() * bim.Value())
  {
    ghost var x, y := bi.comps, q3.Value() * bim.Value();
    var r2, high := RegularMultiply(q3, bim, n, 0);
    r2.comps := CutTo(r2.comps, n);
    assert y >= 0 by { MulMonotone(0, q3.Value(), bim.Value()); }
    CutDifference(x, r2.comps, n, y, high);
    bi.comps := CutTo(bi.comps, n);
    var isNegative := Subtract(bi, r2);
  }

  lemma EstimateIs(x: seq<Comp>, mu: seq<Comp>, k: nat, q3: nat)
    requires k >= 1 && Trimmed(x) && IsQuotient(q3, HighProduct(x, mu, k), Pow(k + 1))
    ensures q3 == EstimateQuotient(x, mu, k)
  {
    SameQuotient(q3, EstimateQuotient(x, mu, k), HighProduct(x, mu, k), Pow(k + 1));
  }

  lemma SameQuotient(q: int, q': int, x: int, d: int)
    requires d > 0 && IsQuotient(q, x, d) && IsQuotient(q', x, d)
    ensures q == q'
  {
    if q < q' {
      MulMonotone(q + 1, q', d);
    } else if q' < q {
      MulMonotone(q' + 1, q, d);
    }
  }

  /** The final subtraction, which leaves the modulus as it was. */
  method SubtractModulus(bi: Bigint, bim: Bigint)
    requires bi != bim && Trimmed(bi.comps) && Trimmed(bim.comps) && bim.Value() <= bi.Value()
    modifies bi, bim
    ensures Trimmed(bi.comps) && bim.comps == old(bim.comps) && bi.Value() == old(bi.Value()) - bim.Value()
  {
    ModulusStays(bim.comps, bi.comps);
    var isNegative := Subtract(bi, bim);
  }

  /** x less q3 moduli, and one more where that is not below the modulus. */
  lemma OneSubtraction(x: int, y: int, m: int, q3: int, r: int, q: int)
    requires 0 < m && y == q3 * m && y <= x < y + 4 * m && (q3 + 2) * m == y + 2 * m && (q3 + 1) * m == y + m
    requires if x - y >= m then r == x - y - m && q == q3 + 1 else r == x - y && q == q3
    ensures x == r + q * m && r < 3 * m && (r < m <==> x < (q3 + 2) * m)
  {
  }

  /** The Barrett step proper, for an operand of at most 2k components: one truncated
      estimate and at most one subtraction. */
  method BarrettShort(bi: Bigint, bim: Bigint, mu: Bigint) returns (ghost q: int)
    requires bi != bim && bi != mu && bim != mu
    requires Reciprocal(bim.comps, mu.comps) && Trimmed(bi.comps) && |bi.comps| <= 2 * |bim.comps|
    modifies bi, bim
    ensures Trimmed(bi.comps) && bim.comps == old(bim.comps)
    ensures old(bi.Value()) == bi.Value() + q * bim.Value() && bi.Value() < 3 * bim.Value()
    ensures bi.Value() < bim.Value() <==>
              old(bi.Value()) < (EstimateQuotient(old(bi.comps), mu.comps, |bim.comps|) + 2) * bim.Value()
  {
    var k := |bim.comps|;
    ghost var x, m := bi.Value(), bim.Value();
    var q3 := Estimate(bi, mu, k);
    q := q3.Value();
    EstimateRange(bi.comps, bim.comps, mu.comps, q);
    ghost var y := q * m;
    FourModuli(m, k, x, y, q);
    SubtractEstimate(bi, q3, bim, k + 1);
    assert bi.Value() == x - y;
    var order := Compare(bi, bim);
    if order >= 0 {
      q := q + 1;
      SubtractModulus(bi, bim);
    }
    OneSubtraction(x, y, m, q3.Value(), bi.Value(), q);
  }

  /** bi_barrett. The result is congruent to the operand and below 3m; for operands
      of at most 2k components it is fully reduced exactly when the estimate was off
      by at most one. Longer operands go to bi_divide. */
  method BarrettReduce(ctx: Context, bi: Bigint) returns (r: Bigint, ghost q: int)
    requires ctx.Ready() && Trimmed(bi.comps)
    requires bi != ctx.mod && bi != ctx.normalisedMod && bi != ctx.mu
    modifies bi, ctx.mod, ctx.normalisedMod
    ensures Trimmed(r.comps) && (r == bi || fresh(r))
    ensures ctx.mod.comps == old(ctx.mod.comps) && ctx.normalisedMod.comps == old(ctx.normalisedMod.comps)
    ensures old(bi.Value()) == r.Value() + q * ctx.mod.Value()
    ensures r.Value() < 3 * ctx.mod.Value()
    ensures |old(bi.comps)| > 2 * |ctx.mod.comps| ==> r.Value() < ctx.mod.Value()
    ensures |old(bi.comps)| <= 2 * |ctx.mod.comps| ==>
              (r.Value() < ctx.mod.Value() <==>
               old(bi.Value()) < (EstimateQuotient(old(bi.comps), ctx.mu.comps, |ctx.mod.comps|) + 2) * ctx.mod.Value())
  {
    if |bi.comps| > 2 * |ctx.mod.comps| {
      r, q := ClassicalReduce(bi, ctx.mod, ctx.normalisedMod);
    } else {
      q := BarrettShort(bi, ctx.mod, ctx.mu);
      r := bi;
    }
  }

  /** bi_mod: the classical reduction. */
  method ClassicalReduce(bi: Bigint, bim: Bigint, normalisedMod: Bigint) returns (r: Bigint, ghost q: int)
    requires bi != bim && bi != normalisedMod && bim != normalisedMod
    requires Trimmed(bi.comps) && bim.Value() > 0 && NormalisedModulus(bim.comps, normalisedMod.comps)
    modifies bi, bim, normalisedMod
    ensures Trimmed(r.comps) && (r == bi || fresh(r))
    ensures bim.comps == old(bim.comps) && normalisedMod.comps == old(normalisedMod.comps)
    ensures old(bi.Value()) == r.Value() + q * bim.Value() && r.Value() < bim.Value()
  {
    ghost var x, m := bi.Value(), bim.Value();
    r := Divide(bi, bim, normalisedMod, true);
    q := x / m;
    RemainderFacts(x, m);
  }

  lemma RemainderFacts(x: nat, m: int)
    requires m > 0
    ensures x == x % m + (x / m) * m && x % m < m
  {
  }

  /** The final subtraction pads the modulus and trims it back. */
  lemma ModulusStays(m: seq<Comp>, r: seq<Comp>)
    requires Trimmed(m) && Trimmed(r) && Val(m) <= Val(r)
    ensures |m| <= |r| && DropLeadingZeros(Resize(m, |r|)) == m
  {
    if |r| < |m| {
      ValLonger(r, m);
    }
    TrimmedUnique(DropLeadingZeros(Resize(m, |r|)), m);
  }

  lemma ValOfTwo(a: Comp, b: Comp)
    ensures Val([a, b]) == a + B * b
  {
    assert [a, b][1..] == [b];
    ValSingle(b);
  }

  lemma ValOfThree(a: Comp, b: Comp, c: Comp)
    ensures Val([a, b, c]) == a + B * (b + B * c)
  {
    assert [a, b, c][1..] == [b, c];
    ValOfTwo(b, c);
  }

  lemma ValOfFour(a: Comp, b: Comp, c: Comp, d: Comp)
    ensures Val([a, b, c, d]) == a + B * (b + B * (c + B * d))
  {
    assert [a, b, c, d][1..] == [b, c, d];
    ValOfThree(b, c, d);
  }

  lemma PowersOfRadix()
    ensures Pow(1) == 0x1_0000_0000
    ensures Pow(3) == 0x1_00000000_00000000_00000000
    ensures Pow(4) == 0x1_00000000_00000000_00000000_00000000
  {
    assert Pow(0) == 1;
    assert Pow(1) == B * Pow(0);
    assert Pow(2) == B * Pow(1);
    assert Pow(3) == B * Pow(2);
    assert Pow(4) == B * Pow(3);
  }

  /** One subtraction is not always enough: for the modulus 2^32 + 256 this operand,
      a multiple of it, is estimated two too low, and bi_barrett returns the modulus
      itself in place of zero. */
  lemma OneSubtractionCanFallShort()
    ensures var m, x, mu := [0x100, 1], [0xFFFF_FF00, 0xFFFF_FFFD, 0xFFFF_FFFF, 0xFFFF_FFFF],
      [0xFF00_0000, 0xFFFF, 0xFFFF_FF00];
            && Reciprocal(m, mu) && Trimmed(x) && |x| <= 2 * |m|
            && Val(x) == (EstimateQuotient(x, mu, |m|) + 2) * Val(m)
  {
    var m: seq<Comp>, x: seq<Comp>, mu: seq<Comp> :=
      [0x100, 1], [0xFFFF_FF00, 0xFFFF_FFFD, 0xFFFF_FFFF, 0xFFFF_FFFF], [0xFF00_0000, 0xFFFF, 0xFFFF_FF00];
    PowersOfRadix();
    ValOfTwo(m[0], m[1]);
    ValOfFour(x[0], x[1], x[2], x[3]);
    ValOfThree(mu[0], mu[1], mu[2]);
    ValOfThree(x[1], x[2], x[3]);
    assert ShiftDown(x, 1) == [x[1], x[2], x[3]];
    SkippedBound(ShiftDown(x, 1), mu, 1, 3);
    assert HighProduct(x, mu, 2) == 0xffffff000000fffffefffffd000002fffffd000003000000;
    SameQuotient(0xffffff000000fffffefffffd, EstimateQuotient(x, mu, 2), HighProduct(x, mu, 2), Pow(3));
  }
}
