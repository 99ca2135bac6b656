/** regular_multiply, including the two truncated forms that Barrett reduction asks
    for, and the component shifts (crypto/bigint.c). */
module Multiplication {
  import opened Arith
  import opened Digits
  import opened Bigint

  /** The first column of row i: 0, or later when columns below outer - 1 are skipped. */
  function FirstColumn(n: nat, i: nat, outer: nat): (j: nat)
    ensures j > 0 ==> outer < n && i + j + 1 == outer
  {
    if outer > 0 && outer > i && outer < n then outer - i - 1 else 0
  }

  /** The partial products that an outer-truncated multiply leaves out, rows below i. */
  function Skipped(a: seq<Comp>, b: seq<Comp>, outer: nat, i: nat): nat
    requires i <= |b|
  {
    if i == 0 then 0
    else Skipped(a, b, outer, i - 1) + Pow(i - 1) * SkippedRow(a, b[i - 1], outer, i - 1)
  }

  function SkippedRow(a: seq<Comp>, y: Comp, outer: nat, i: nat): nat {
    var j := FirstColumn(|a|, i, outer);
    var low := Val(a[..j]);
    MulMonotone(0, low, y);
    low * y
  }

  /** The omission is small: fewer than outer rows lose less than B^outer each. */
  lemma {:induction false} SkippedBound(a: seq<Comp>, b: seq<Comp>, outer: nat, i: nat)
    requires i <= |b|
    ensures outer == 0 ==> Skipped(a, b, outer, i) == 0
    ensures outer > 0 ==> Skipped(a, b, outer, i) <= (outer - 1) * Pow(outer)
    ensures outer > 0 && i < outer ==> Skipped(a, b, outer, i) <= i * Pow(outer)
  {
    if i > 0 {
      SkippedBound(a, b, outer, i - 1);
      SkippedRowBound(a, b[i - 1], outer, i - 1);
      assert (i - 1) * Pow(outer) + Pow(outer) == i * Pow(outer);
      if outer > 0 {
        MulMonotone(0, outer - 1, Pow(outer));
        if i < outer {
          MulMonotone(i, outer - 1, Pow(outer));
        }
      }
    } else if outer > 0 {
      MulMonotone(0, outer - 1, Pow(outer));
    }
  }

  lemma SkippedRowBound(a: seq<Comp>, y: Comp, outer: nat, i: nat)
    ensures Pow(i) * SkippedRow(a, y, outer, i) <= if i + 1 >= outer then 0 else Pow(outer)
  {
    var j := FirstColumn(|a|, i, outer);
    if j == 0 {
      assert a[..j] == [];
      assert Val(a[..j]) * y == 0;
    } else {
      SkippedRowTop(a, y, i, j, Val(a[..j]) * y);
    }
  }

  lemma SkippedRowTop(a: seq<Comp>, y: Comp, i: nat, j: nat, row: int)
    requires j <= |a| && row == Val(a[..j]) * y
    ensures Pow(i) * row <= Pow(i + j + 1)
  {
    PowAdd(i, j);
    RowBoundArith(Pow(i), Pow(j), Pow(i + j), Val(a[..j]), y);
  }

  lemma RowBoundArith(pi: nat, pj: nat, p: nat, low: nat, y: Comp)
    requires p == pi * pj && low <= pj
    ensures pi * (low * y) <= B * p
  {
    MulMonotone(low, pj, y);
    MulMonotone(low * y, pj * y, pi);
    assert pi * (pj * y) == p * y;
    MulMonotone(y, B, p);
  }

  /** The state of the product buffer inside row i, with columns first .. j - 1 done
      on top of the value `base`. */
  ghost predicate RowState(r: seq<Comp>, base: int, a: seq<Comp>, y: Comp, i: nat, first: nat, j: nat, carry: Comp) {
    && first <= j <= |a| && i + |a| < |r|
    && Val(r) + Pow(i + j) * carry == base + Pow(i) * ((Val(a[..j]) - Val(a[..first])) * y)
  }

  lemma RowColumn(r: seq<Comp>, base: int, a: seq<Comp>, y: Comp, i: nat, first: nat, j: nat, carry: Comp, d: (Comp, Comp))
    requires RowState(r, base, a, y, i, first, j, carry) && j < |a|
    requires d == MulAddDigit(r[i + j], a[j], y, carry)
    ensures RowState(r[i + j := d.0], base, a, y, i, first, j + 1, d.1)
  {
    ValUpdate(r, i + j, d.0);
    ValSnoc(a, j);
    PowAdd(i, j);
    var m: int := (a[j] as int) * (y as int);
    assert d.0 + B * d.1 == r[i + j] + m + carry;
    RowColumnArith(Pow(i), Pow(j), Pow(i + j), a[j], y, m, r[i + j], carry, d.0, d.1, Val(a[..j]) - Val(a[..first]));
  }

  lemma RowColumnArith(pi: int, pj: int, p: int, x: int, y: int, m: int, w: int, carry: int, low: int, carry': int,
      done: int)
    requires p == pi * pj && m == x * y && low + B * carry' == w + m + carry
    ensures p * low - p * w + (B * p) * carry'
         == p * carry + pi * ((done + pj * x) * y) - pi * (done * y)
  {
    assert p * (low + B * carry') == p * low + (B * p) * carry';
    assert p * (w + m + carry) == p * w + p * m + p * carry;
    assert (done + pj * x) * y == done * y + (pj * x) * y;
    assert pi * (done * y + (pj * x) * y) == pi * (done * y) + pi * ((pj * x) * y);
    assert (pi * pj) * (x * y) == pi * ((pj * x) * y);
  }

  /** The rows below i are in. What is missing from the full product is the skipped
      columns and, in an inner-truncated multiply, a multiple g of B^inner. */
  ghost predicate Product(r: seq<Comp>, a: seq<Comp>, b: seq<Comp>, inner: nat, outer: nat, i: nat, g: int) {
    && i <= |b| && |r| == |a| + |b|
    && (forall k :: i + |a| <= k < |r| ==> r[k] == 0)
    && (inner == 0 ==> g == 0)
    && Val(r) + Pow(inner) * g + Skipped(a, b, outer, i) == Val(a) * Val(b[..i])
  }

  /** A row that ran to its last column. */
  lemma RowFull(r0: seq<Comp>, r: seq<Comp>, a: seq<Comp>, b: seq<Comp>, inner: nat, outer: nat, i: nat, g: int, carry: Comp)
    requires i < |b| && Product(r0, a, b, inner, outer, i, g)
    requires |r| == |r0| && forall k :: i + |a| <= k < |r| ==> r[k] == 0
    requires RowState(r, Val(r0), a, b[i], i, FirstColumn(|a|, i, outer), |a|, carry)
    ensures Product(r[i + |a| := carry], a, b, inner, outer, i + 1, g)
  {
    RowFullValue(r, Val(r0), a, b, outer, i, carry);
  }

  lemma RowFullValue(r: seq<Comp>, base: int, a: seq<Comp>, b: seq<Comp>, outer: nat, i: nat, carry: Comp)
    requires i < |b| && i + |a| < |r| && r[i + |a|] == 0
    requires RowState(r, base, a, b[i], i, FirstColumn(|a|, i, outer), |a|, carry)
    ensures Val(r[i + |a| := carry]) + Skipped(a, b, outer, i + 1) - Skipped(a, b, outer, i)
         == base + Val(a) * Val(b[..i + 1]) - Val(a) * Val(b[..i])
  {
    var n := |a|;
    ValUpdate(r, i + n, carry);
    assert a[..n] == a;
    ValSnoc(b, i);
    RowFullArith(Pow(i), Val(a), Val(a[..FirstColumn(n, i, outer)]), b[i], Val(b[..i]), Val(b[..i + 1]),
                 SkippedRow(a, b[i], outer, i));
  }

  lemma RowFullArith(p: int, a: int, first: int, y: int, below: int, below': int, row: int)
    requires row == first * y && below' == below + p * y
    ensures p * ((a - first) * y) + p * row == a * below' - a * below
  {
    assert (a - first) * y + row == a * y;
    assert p * ((a - first) * y) + p * row == p * (a * y);
    assert a * below' == a * below + p * (a * y);
  }

  /** A row that stopped at column inner: everything it left out, and the carry
      parked there, is a multiple of B^inner. */
  lemma RowCut(r0: seq<Comp>, r: seq<Comp>, a: seq<Comp>, b: seq<Comp>, inner: nat, i: nat, g: int, j: nat, carry: Comp)
    returns (g': int)
    requires i < |b| && j < |a| && 0 < inner <= i + j && Product(r0, a, b, inner, 0, i, g)
    requires |r| == |r0| && forall k :: i + |a| <= k < |r| ==> r[k] == 0
    requires RowState(r, Val(r0), a, b[i], i, 0, j, carry)
    ensures Product(r[i + j := carry], a, b, inner, 0, i + 1, g')
  {
    ValUpdate(r, i + j, carry);
    ValSplit(a, j);
    ValSnoc(b, i);
    PowAdd(i, j);
    PowAdd(inner, i + j - inner);
    SkippedBound(a, b, 0, i);
    SkippedBound(a, b, 0, i + 1);
    assert a[..0] == [];
    var above := Val(a[j..]);
    g' := g + Pow(i + j - inner) * (above * b[i] + r[i + j]);
    RowCutArith(Pow(i), Pow(j), Pow(i + j), Pow(inner), Pow(i + j - inner), Val(a), Val(a[..j]), above,
                b[i], Val(b[..i]), r[i + j], g, g');
  }

  lemma RowCutArith(pi: int, pj: int, p: int, pk: int, pr: int, a: int, low: int, above: int, y: int,
                    below: int, w: int, g: int, g': int)
    requires p == pi * pj && p == pk * pr && a == low + pj * above
    requires g' == g + pr * (above * y + w)
    ensures pi * (low * y) - p * w + pk * g' - pk * g == a * (below + pi * y) - a * below
  {
    assert pk * g' - pk * g == p * (above * y + w) by {
      assert pk * (g + pr * (above * y + w)) == pk * g + (pk * pr) * (above * y + w);
    }
    assert p * (above * y + w) == pi * ((pj * above) * y) + p * w;
    assert a * (below + pi * y) - a * below == pi * (a * y);
    assert pi * (a * y) == pi * (low * y) + pi * ((pj * above) * y);
  }

  /** Row i of regular_multiply: component i of b times a, with the columns the two
      truncations leave. g tracks what an inner truncation has dropped. */
  method MultiplyRow(r0: seq<Comp>, a: seq<Comp>, b: seq<Comp>, inner: nat, outer: nat, i: nat, ghost g: int)
    returns (r: seq<Comp>, ghost g': int)
    requires i < |b| && |a| >= 1 && (inner == 0 || outer == 0)
    requires Product(r0, a, b, inner, outer, i, g)
    ensures Product(r, a, b, inner, outer, i + 1, g')
  {
    var n, first := |a|, FirstColumn(|a|, i, outer);
    var carry: Comp, j := 0, first;
    r, g' := r0, g;
    assert Pow(i) * ((Val(a[..j]) - Val(a[..first])) * b[i]) == 0;
    while j < n && !(inner > 0 && i + j >= inner)
      invariant first <= j <= n && |r| == |r0|
      invariant RowState(r, Val(r0), a, b[i], i, first, j, carry)
      invariant forall k :: i + n <= k < |r| ==> r[k] == 0
    {
      var d := MulAddDigit(r[i + j], a[j], b[i], carry);
      RowColumn(r, Val(r0), a, b[i], i, first, j, carry, d);
      r := r[i + j := d.0];
      carry, j := d.1, j + 1;
    }
    if j == n {
      RowFull(r0, r, a, b, inner, outer, i, g, carry);
    } else {
      g' := RowCut(r0, r, a, b, inner, i, g, j, carry);
    }
    r := r[i + j := carry];
  }

  /** comp_mod's view of a number: at most n components. */
  function CutTo(s: seq<Comp>, n: nat): (r: seq<Comp>) {
    if |s| > n then s[..n] else s
  }

  lemma CutToValue(s: seq<Comp>, n: nat) returns (above: nat)
    ensures Val(CutTo(s, n)) < Pow(n) && Val(s) == Val(CutTo(s, n)) + Pow(n) * above
  {
    if |s| > n {
      ValSplit(s, n);
      above := Val(s[n..]);
    } else {
      PowMonotone(|s|, n);
      above := 0;
    }
  }

  /** regular_multiply. With outer the columns below outer - 1 are left out; with
      inner only the low inner components are meant: they are those of the product,
      which exceeds them by B^inner times the ghost result. */
  method RegularMultiply(bia: Bigint, bib: Bigint, inner: nat, outer: nat) returns (biR: Bigint, ghost high: int)
    requires |bia.comps| >= 1 && |bib.comps| >= 1 && (inner == 0 || outer == 0)
    ensures fresh(biR) && Trimmed(biR.comps)
    ensures inner == 0 ==> biR.Value() + Skipped(bia.comps, bib.comps, outer, |bib.comps|) == bia.Value() * bib.Value()
    ensures inner > 0 ==> Val(CutTo(biR.comps, inner)) + Pow(inner) * high == bia.Value() * bib.Value()
  {
    var a, b := bia.comps, bib.comps;
    var sr := Zeros(|a| + |b|);
    var i := 0;
    high := 0;
    ValZeros(|sr|);
    assert b[..0] == [];
    while i < |b|
      invariant 0 <= i <= |b| && Product(sr, a, b, inner, outer, i, high)
    {
      sr, high := MultiplyRow(sr, a, b, inner, outer, i, high);
      i := i + 1;
    }
    assert b[..|b|] == b;
    biR := new Bigint(sr);
    biR.Trim();
    if inner > 0 {
      SkippedBound(a, b, outer, |b|);
      ghost var above := CutToValue(biR.comps, inner);
      MulDist(Pow(inner), above, high);
      high := high + above;
    }
  }

  /** What comp_right_shift leaves. */
  function ShiftDown(s: seq<Comp>, n: nat): (r: seq<Comp>)
    requires Trimmed(s)
    ensures Trimmed(r) && IsQuotient(Val(r), Val(s), Pow(n))
  {
    if |s| <= n then
      ValSingle(0);
      PowMonotone(|s|, n);
      [0]
    else
      ValSplit(s, n);
      SplitQuotient(Pow(n), Val(s[..n]), Val(s[n..]));
      s[n..]
  }

  lemma SplitQuotient(p: int, low: int, high: int)
    requires 0 <= low < p
    ensures IsQuotient(high, low + p * high, p)
  {
    assert (high + 1) * p == p * high + p;
  }

  /** comp_right_shift: in place, by whole components. */
  method RightShift(r: Bigint, numShifts: nat)
    requires Trimmed(r.comps)
    modifies r
    ensures r.comps == ShiftDown(old(r.comps), numShifts)
  {
    if |r.comps| <= numShifts {
      r.comps := [0];
    } else {
      r.comps := r.comps[numShifts..];
    }
  }

  /** comp_left_shift: in place, by whole components. */
  method LeftShift(r: Bigint, numShifts: nat)
    requires |r.comps| >= 1
    modifies r
    ensures r.comps == Zeros(numShifts) + old(r.comps)
    ensures r.Value() == Pow(numShifts) * old(r.Value())
  {
    r.comps := Zeros(numShifts) + r.comps;
    ShiftedValue(old(r.comps), numShifts);
  }

  lemma ShiftedValue(s: seq<Comp>, n: nat)
    ensures Val(Zeros(n) + s) == Pow(n) * Val(s)
  {
    ValConcat(Zeros(n), s);
    ValZeros(n);
  }
}
