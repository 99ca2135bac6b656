/** regular_square: schoolbook squaring with doubled cross products, whose 64-bit
    overflow is remembered in a single flag per column (crypto/bigint.c). */
module Squaring {
  import opened Arith
  import opened Digits
  import opened Bigint

  /** COMP_MAX: the largest value of a double component. */
  const CompMax: int := 0xFFFF_FFFF_FFFF_FFFF

  /** Wrap-around of a double component. */
  function Wrap(x: nat): (r: nat)
    requires x <= 2 * CompMax
    ensures r == if x <= CompMax then x else x - CompMax - 1
  {
    x % 0x1_0000_0000_0000_0000
  }

  /** The three overflow tests of one column, in the order the code makes them; xx
      is the product of the two components. */
  function OverflowTests(xx: nat, w: Comp, carry: nat): (t: (bool, bool, bool))
    requires xx <= 0xFFFF_FFFE_0000_0001 && carry < 2 * B
  {
    var tmp1 := Wrap(2 * xx);
    var tmp2 := Wrap(tmp1 + w);
    (CompMax - xx < xx, CompMax - tmp1 < w, CompMax - tmp2 < carry)
  }

  /** One column of the inner loop: the low component and the next carry, computed
      in 64-bit arithmetic with the flag c standing for the lost bit. */
  function SquareColumn(xx: nat, w: Comp, carry: nat): (r: (Comp, nat))
    requires xx <= 0xFFFF_FFFE_0000_0001 && carry < 2 * B
    ensures r.0 + B * r.1 == 2 * xx + w + carry && r.1 < 2 * B
  {
    OneFlagSuffices(xx, w, carry);
    var t := OverflowTests(xx, w, carry);
    var tmp := Wrap(Wrap(Wrap(2 * xx) + w) + carry);
    var c := t.0 || t.1 || t.2;
    (Low(tmp), High(tmp) + if c then B else 0)
  }

  /** At most one of the three tests fires, so one flag records the overflow exactly. */
  lemma OneFlagSuffices(xx: nat, w: Comp, carry: nat)
    requires xx <= 0xFFFF_FFFE_0000_0001 && carry < 2 * B
    ensures var t := OverflowTests(xx, w, carry);
            !(t.0 && t.1) && !(t.0 && t.2) && !(t.1 && t.2)
    ensures var t := OverflowTests(xx, w, carry);
            Wrap(Wrap(Wrap(2 * xx) + w) + carry) + (if t.0 || t.1 || t.2 then CompMax + 1 else 0)
            == 2 * xx + w + carry
  {
  }

  /** What row i contributes by the time the columns below j are done: component i
      against itself once, and twice against each later component. */
  function RowSum(x: seq<Comp>, i: nat, j: nat): int
    requires i < j <= |x|
  {
    if j == i + 1 then
      Pow(i + i) * Mul(x[i], x[i])
    else
      RowSum(x, i, j - 1) + Pow(i + j - 1) * (2 * Mul(x[i], x[j - 1]))
  }

  /** In closed form, with a the component i at its own position. */
  lemma {:induction false} RowSumClosed(x: seq<Comp>, i: nat, j: nat)
    requires i < j <= |x|
    ensures RowSum(x, i, j) == (Pow(i) * x[i]) * (Pow(i) * x[i] + 2 * (Val(x[..j]) - Val(x[..i + 1])))
  {
    if j == i + 1 {
      PowAdd(i, i);
      CornerArith(Pow(i), x[i]);
    } else {
      RowSumClosed(x, i, j - 1);
      PowAdd(i, j - 1);
      ValSnoc(x, j - 1);
      assert x[..j - 1 + 1] == x[..j];
      CrossArith(Pow(i), Pow(j - 1), Pow(i + j - 1), x[i], x[j - 1], Mul(x[i], x[j - 1]), Pow(i) * x[i],
                 Val(x[..j - 1]) - Val(x[..i + 1]), RowSum(x, i, j - 1));
    }
  }

  lemma CornerArith(p: int, x: int)
    ensures (p * p) * (x * x) == (p * x) * (p * x)
  {
  }

  lemma CrossArith(p: int, q: int, pq: int, x: int, y: int, m: int, a: int, rest: int, sum: int)
    requires pq == p * q && m == x * y && a == p * x && sum == a * (a + 2 * rest)
    ensures sum + pq * (2 * m) == a * (a + 2 * (rest + q * y))
  {
    assert (p * q) * (x * y) == (p * x) * (q * y);
    CrossTerm(a, rest, q * y);
  }

  lemma CrossTerm(a: int, rest: int, b: int)
    ensures a * (a + 2 * rest) + 2 * (a * b) == a * (a + 2 * (rest + b))
  {
  }

  /** The state of w after the columns of row i below j, on top of the value `base`. */
  ghost predicate Row(w: seq<Comp>, base: int, x: seq<Comp>, i: nat, j: nat, carry: int) {
    && i < j <= |x|
    && Val(w) + Pow(i + j) * carry == base + RowSum(x, i, j)
  }

  /** Column k takes the low part of a sum; the rest stays as carry for column k + 1. */
  lemma ColumnValue(w: seq<Comp>, k: nat, low: Comp, carry': int, total: int)
    requires k < |w| && low + B * carry' == w[k] + total
    ensures Val(w[k := low]) + Pow(k + 1) * carry' == Val(w) + Pow(k) * total
  {
    ValUpdate(w, k, low);
    ColumnArith(Pow(k), w[k], low, carry', total);
  }

  lemma ColumnArith(p: int, w: int, low: int, carry': int, total: int)
    requires low + B * carry' == w + total
    ensures p * low - p * w + (B * p) * carry' == p * total
  {
    assert p * (low + B * carry') == p * low + (B * p) * carry';
    assert p * (w + total) == p * w + p * total;
  }

  lemma RowStart(w: seq<Comp>, x: seq<Comp>, i: nat, low: Comp, carry: int)
    requires i < |x| && i + i < |w| && low + B * carry == w[i + i] + Mul(x[i], x[i])
    ensures Row(w[i + i := low], Val(w), x, i, i + 1, carry)
  {
    ColumnValue(w, i + i, low, carry, Mul(x[i], x[i]));
  }

  lemma RowStep(w: seq<Comp>, base: int, x: seq<Comp>, i: nat, j: nat, carry: int, low: Comp, carry': int)
    requires Row(w, base, x, i, j, carry) && j < |x| && i + j < |w|
    requires low + B * carry' == 2 * Mul(x[i], x[j]) + w[i + j] + carry
    ensures Row(w[i + j := low], base, x, i, j + 1, carry')
  {
    var xx := 2 * Mul(x[i], x[j]);
    ColumnValue(w, i + j, low, carry', xx + carry);
    MulDist(Pow(i + j), xx, carry);
  }

  /** The last two components of a row take the final carry. */
  lemma RowEnd(w: seq<Comp>, base: int, x: seq<Comp>, i: nat, carry: int, low: Comp, high: Comp)
    requires Row(w, base, x, i, |x|, carry) && i + |x| + 1 < |w| && w[i + |x| + 1] == 0
    requires low + B * high == w[i + |x|] + carry
    ensures Val(w[i + |x| := low][i + |x| + 1 := high]) == base + RowSum(x, i, |x|)
  {
    var k := i + |x|;
    ColumnValue(w, k, low, high, carry);
    ValUpdate(w[k := low], k + 1, high);
  }

  /** The rows so far account for everything but the square of the part of x not
      yet reached. */
  ghost predicate Squared(w: seq<Comp>, x: seq<Comp>, i: nat) {
    && i <= |x|
    && Val(w) == Val(x) * Val(x) - (Val(x) - Val(x[..i])) * (Val(x) - Val(x[..i]))
  }

  lemma SquaredStep(w: seq<Comp>, w': seq<Comp>, x: seq<Comp>, i: nat)
    requires i < |x| && Squared(w, x, i)
    requires Val(w') == Val(w) + RowSum(x, i, |x|)
    ensures Squared(w', x, i + 1)
  {
    RowSumClosed(x, i, |x|);
    assert x[..|x|] == x;
    ValSnoc(x, i);
    SquareSplit(Pow(i) * x[i], Val(x) - Val(x[..i + 1]));
  }

  lemma SquareSplit(a: int, rest: int)
    ensures (a + rest) * (a + rest) == rest * rest + a * (a + 2 * rest)
  {
  }

  /** regular_square */
  method RegularSquare(bi: Bigint) returns (biR: Bigint)
    requires |bi.comps| >= 1
    ensures fresh(biR) && Trimmed(biR.comps)
    ensures biR.Value() == bi.Value() * bi.Value()
  {
    var x, t := bi.comps, |bi.comps|;
    var w := Zeros(2 * t + 1);
    ValZeros(2 * t + 1);
    var i := 0;
    assert x[..0] == [];
    while i < t
      invariant 0 <= i <= t && |w| == 2 * t + 1
      invariant Squared(w, x, i)
      invariant forall k :: i + t < k < |w| ==> w[k] == 0
    {
      w := SquareRow(w, x, i);
      i := i + 1;
    }
    assert x[..t] == x;
    biR := new Bigint(w);
    biR.Trim();
  }

  /** One row: component i of x squared and doubled into w. */
  method SquareRow(w0: seq<Comp>, x: seq<Comp>, i: nat) returns (w: seq<Comp>)
    requires i < |x| && |w0| == 2 * |x| + 1 && Squared(w0, x, i)
    requires forall k :: i + |x| < k < |w0| ==> w0[k] == 0
    ensures |w| == |w0| && Squared(w, x, i + 1)
    ensures forall k :: i + 1 + |x| < k < |w| ==> w[k] == 0
  {
    var t := |x|;
    var carry: nat;
    w, carry := SquareColumns(w0, x, i);
    var tmp := w[i + t] + carry;
    RowEnd(w, Val(w0), x, i, carry, Low(tmp), High(tmp));
    w := w[i + t := Low(tmp)][i + t + 1 := High(tmp)];
    SquaredStep(w0, w, x, i);
  }

  /** The columns of row i, from the square of component i on. */
  method SquareColumns(w0: seq<Comp>, x: seq<Comp>, i: nat) returns (w: seq<Comp>, carry: nat)
    requires i < |x| && |w0| == 2 * |x| + 1
    requires forall k :: i + |x| < k < |w0| ==> w0[k] == 0
    ensures |w| == |w0| && carry < 2 * B
    ensures Row(w, Val(w0), x, i, |x|, carry)
    ensures forall k :: i + |x| < k < |w| ==> w[k] == 0
  {
    var t := |x|;
    var tmp := w0[i + i] + Mul(x[i], x[i]);
    RowStart(w0, x, i, Low(tmp), High(tmp));
    w, carry := w0[i + i := Low(tmp)], High(tmp);
    var j := i + 1;
    while j < t
      invariant i + 1 <= j <= t && |w| == |w0| && carry < 2 * B
      invariant Row(w, Val(w0), x, i, j, carry)
      invariant forall k :: i + t < k < |w| ==> w[k] == 0
    {
      var column := SquareColumn(Mul(x[i], x[j]), w[i + j], carry);
      RowStep(w, Val(w0), x, i, j, carry, column.0, column.1);
      w := w[i + j := column.0];
      carry, j := column.1, j + 1;
    }
  }
}
