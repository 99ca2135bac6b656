/** bi_divide: Knuth's algorithm D with a single correction test, in quotient
    mode and in modulus mode (crypto/bigint.c). */
module LongDivision {
  import opened Arith
  import opened Digits
  import opened Bigint

  /** The two-by-one guess (u0 : u1) / v1, or B - 1 when u0 equals v1. The cast
      to one component is `Low`. */
  function GuessDigit(u0: Comp, u1: Comp, v1: Comp): (q: Comp)
    requires v1 != 0
  {
    if u0 == v1 then B - 1 else Low((u0 * B + u1) / v1)
  }

  /** The single correction by the next components u2 and v2. */
  function CorrectDigit(q: Comp, u0: Comp, u1: Comp, u2: Comp, v1: Comp, v2: Comp): (r: Comp) {
    if u0 != v1 && v2 != 0 then
      var inner := Low(u0 * B + u1 - q * v1);
      if v2 * q > inner * B + u2 then Low(q - 1) else q
    else
      q
  }

  /** The quotient digit guess q' for the window w over the divisor v. */
  function EstimateDigit(w: seq<Comp>, v: seq<Comp>): (q: Comp)
    requires |v| >= 1 && |w| == |v| + 1 && v[|v| - 1] != 0
  {
    var n := |v|;
    var q := GuessDigit(w[n], w[n - 1], v[n - 1]);
    if n > 1 then CorrectDigit(q, w[n], w[n - 1], w[n - 2], v[n - 1], v[n - 2]) else q
  }

  /** The two-by-one guess is never too small. */
  lemma GuessNotBelow(p: int, t: int, low: int, v1: int, vlow: int, q: int, w: int, v: int)
    requires w == p * t + low && v == p * v1 + vlow
    requires p > 0 && low < p && 0 <= vlow && q >= 0
    requires t < (q + 1) * v1
    ensures w < (q + 1) * v
  {
    MulMonotone(t + 1, (q + 1) * v1, p);
    MulDist(p, t, 1);
    assert (q + 1) * v == p * ((q + 1) * v1) + (q + 1) * vlow;
    MulMonotone(0, q + 1, vlow);
  }

  /** With a normalised divisor the two-by-one guess is at most two too large. */
  lemma GuessAtMostTwoAbove(p: int, t: int, low: int, v1: int, vlow: int, q: int, w: int, v: int)
    requires w == p * t + low && v == p * v1 + vlow
    requires p > 0 && 0 <= low && vlow < p && 2 <= q < B && 0x8000_0000 <= v1
    requires q * v1 <= t
    ensures (q - 2) * v <= w
  {
    MulDist(p, v1, 1);
    MulMonotone(v, p * (v1 + 1), q - 2);
    assert (q - 2) * (v1 + 1) == q * v1 + q - 2 * v1 - 2;
    MulMonotone((q - 2) * (v1 + 1), t, p);
    assert (q - 2) * (p * (v1 + 1)) == p * ((q - 2) * (v1 + 1));
  }

  /** The correction test only fires on a guess that is too large. */
  lemma TestSound(p: int, t3: int, low: int, v12: int, vlow: int, q: int, w: int, v: int)
    requires w == p * t3 + low && v == p * v12 + vlow
    requires p > 0 && low < p && 0 <= vlow && q >= 0
    requires q * v12 > t3
    ensures q * v > w
  {
    MulMonotone(t3 + 1, q * v12, p);
    MulDist(p, t3, 1);
    assert q * v == p * (q * v12) + q * vlow;
    MulMonotone(0, q, vlow);
  }

  /** A guess that passes the test is at most one too large. */
  lemma TestComplete(p: int, t3: int, low: int, v12: int, vlow: int, q: int, w: int, v: int)
    requires w == p * t3 + low && v == p * v12 + vlow
    requires p > 0 && 0 <= low && 0 <= vlow < p && 0 <= q < B <= v12
    requires q * v12 <= t3
    ensures (q - 1) * v <= w
  {
    MulMonotone(q * v12, t3, p);
    assert (q - 1) * v == p * (q * v12) - p * v12 + q * vlow - vlow;
    MulMonotone(q, B, vlow);
    MulMonotone(vlow, p, B);
    MulMonotone(B, v12, p);
  }

  /** When the leading components agree the guess B - 1 skips the test, and is
      still at most one too large. */
  lemma SaturatedGuess(p: int, u1: int, low: int, v1: int, vlow: int, w: int, v: int)
    requires w == p * (v1 * B + u1) + low && v == p * v1 + vlow
    requires p > 0 && 0 <= low && 0 <= u1 && vlow < p && 0x8000_0000 <= v1
    ensures (B - 2) * v <= w
  {
    MulDist(p, v1, 1);
    MulMonotone(v, p * (v1 + 1), B - 2);
    assert (B - 2) * (p * (v1 + 1)) == p * ((B - 2) * (v1 + 1));
    MulMonotone((B - 2) * (v1 + 1), v1 * B + u1, p);
  }

  /** The window invariant forces its top component to be no larger than v's. */
  lemma TopBounded(p: int, u0: int, u1: int, low: int, v1: int, vlow: int, w: int, v: int)
    requires w == p * (u0 * B + u1) + low && v == p * v1 + vlow
    requires p > 0 && 0 <= low && 0 <= u1 && vlow < p
    requires w < v * B
    ensures u0 <= v1
  {
    assert p * ((v1 + 1) * B) == (p * v1 + p) * B;
    if u0 > v1 {
      MulMonotone((v1 + 1) * B, u0 * B + u1, p);
    }
  }

  /** The floor of a two-component number by v1 > u0 fits one component. */
  lemma GuessIsFloor(u0: Comp, u1: Comp, v1: Comp)
    requires u0 < v1
    ensures var q := GuessDigit(u0, u1, v1); q * v1 <= u0 * B + u1 < (q + 1) * v1
  {
    MulMonotone(u0 + 1, v1, B);
    QuotientBelow(u0 * B + u1, v1, B);
    assert ((u0 * B + u1) / v1 + 1) * v1 == v1 * ((u0 * B + u1) / v1) + v1;
  }

  /** q is the quotient of w by v, or one more. */
  ghost predicate WithinOne(w: int, v: int, q: int) {
    (q - 1) * v <= w < (q + 1) * v
  }

  /** One-component divisors: the guess is within one. */
  lemma ShortEstimate(u0: Comp, u1: Comp, v1: Comp)
    requires 0x8000_0000 <= v1 && u0 * B + u1 < v1 * B
    ensures WithinOne(u0 * B + u1, v1, GuessDigit(u0, u1, v1))
  {
    assert u0 < v1;
    GuessIsFloor(u0, u1, v1);
    var q := GuessDigit(u0, u1, v1);
    assert (q as int - 1) * v1 == q * v1 - v1;
  }

  /** Knuth's theorem on the leading components. The numbers w and v are given
      split after two components and after three. */
  lemma LongEstimate(p: int, pb: int, u0: Comp, u1: Comp, u2: Comp, t: int, t3: int, low: int, low': int,
                     v1: Comp, v2: Comp, v12: int, vlow: int, vlow': int, w: int, v: int)
    requires 0 <= low < p && 0 <= vlow < p && 0 <= low' < pb && 0 <= vlow' < pb
    requires 0x8000_0000 <= v1 && 0 < v && 0 <= w < v * B
    requires t == u0 * B + u1 && t3 == t * B + u2 && v12 == v1 * B + v2
    requires w == p * t3 + low && w == pb * t + low'
    requires v == p * v12 + vlow && v == pb * v1 + vlow'
    ensures WithinOne(w, v, CorrectDigit(GuessDigit(u0, u1, v1), u0, u1, u2, v1, v2))
  {
    var q := GuessDigit(u0, u1, v1);
    TopBounded(pb, u0, u1, low', v1, vlow', w, v);
    if u0 == v1 {
      SaturatedGuess(pb, u1, low', v1, vlow', w, v);
      assert q == B - 1 == CorrectDigit(q, u0, u1, u2, v1, v2);
    } else {
      GuessIsFloor(u0, u1, v1);
      GuessNotBelow(pb, t, low', v1, vlow', q, w, v);
      TestedEstimate(p, pb, t, t3, u2, low, low', v1, v2, v12, vlow, vlow', q, w, v);
      TestAsCoded(q, u0, u1, u2, v1, v2, t);
    }
  }

  /** `inner` is exact, so the coded test is the test on unbounded numbers. */
  lemma TestAsCoded(q: Comp, u0: Comp, u1: Comp, u2: Comp, v1: Comp, v2: Comp, t: int)
    requires u0 != v1 && t == u0 * B + u1 && q * v1 <= t < (q + 1) * v1
    requires v2 * q > (t - q * v1) * B + u2 ==> q >= 1
    ensures CorrectDigit(q, u0, u1, u2, v1, v2) == if v2 * q > (t - q * v1) * B + u2 then q - 1 else q
  {
    assert (q + 1) * v1 == q * v1 + v1;
    assert v2 == 0 ==> v2 * q == 0;
  }

  /** The correction test on an exact two-by-one guess q. */
  lemma TestedEstimate(p: int, pb: int, t: int, t3: int, u2: int, low: int, low': int,
                       v1: int, v2: int, v12: int, vlow: int, vlow': int, q: Comp, w: int, v: int)
    requires 0 <= low < p && 0 <= vlow < p && 0 <= low' < pb && 0 <= vlow' < pb
    requires 0x8000_0000 <= v1 && 0 <= u2 && 0 <= v2 && 0 < v
    requires q * v1 <= t && t3 == t * B + u2 && v12 == v1 * B + v2
    requires w == p * t3 + low && w == pb * t + low'
    requires v == p * v12 + vlow && v == pb * v1 + vlow'
    requires 0 <= w < (q + 1) * v
    ensures if v2 * q > (t - q * v1) * B + u2 then 1 <= q && WithinOne(w, v, q - 1) else WithinOne(w, v, q)
  {
    assert q * v12 == (q * v1) * B + v2 * q;
    if v2 * q > (t - q * v1) * B + u2 {
      TestSound(p, t3, low, v12, vlow, q, w, v);
      if q == 1 {
        assert (q as int - 2) * v == -v;
      } else {
        GuessAtMostTwoAbove(pb, t, low', v1, vlow', q, w, v);
      }
    } else {
      TestComplete(p, t3, low, v12, vlow, q, w, v);
    }
  }

  /** The two leading components of a number. */
  lemma TwoLeading(s: seq<Comp>, n: nat) returns (t: int)
    requires |s| == n + 1 >= 2
    ensures t == s[n] * B + s[n - 1]
    ensures Val(s) == Pow(n - 1) * t + Val(s[..n - 1])
  {
    assert s[..n + 1] == s;
    ValSnoc(s, n);
    ValSnoc(s, n - 1);
    t := s[n] * B + s[n - 1];
    LeadingArith(Pow(n - 1), s[n], s[n - 1]);
  }

  /** The three leading components of a number. */
  lemma ThreeLeading(s: seq<Comp>, n: nat) returns (t: int, t3: int)
    requires |s| == n + 1 >= 3
    ensures t == s[n] * B + s[n - 1] && t3 == t * B + s[n - 2]
    ensures Val(s) == Pow(n - 1) * t + Val(s[..n - 1])
    ensures Val(s) == Pow(n - 2) * t3 + Val(s[..n - 2])
  {
    t := TwoLeading(s, n);
    t3 := t * B + s[n - 2];
    ValSnoc(s, n - 2);
    LeadingArith(Pow(n - 2), t, s[n - 2]);
  }

  lemma LeadingArith(p: int, x: int, y: int)
    ensures p * y + (B * p) * x == p * (x * B + y)
  {
  }

  /** Knuth's theorem for this code: one test leaves the digit at most one too
      large, so at most one add-back follows. */
  lemma EstimateWithinOne(w: seq<Comp>, v: seq<Comp>)
    requires |v| >= 1 && |w| == |v| + 1
    requires v[|v| - 1] >= 0x8000_0000 && Val(w) < Val(v) * B
    ensures Val(v) > 0 && Val(w) / Val(v) <= EstimateDigit(w, v) <= Val(w) / Val(v) + 1
  {
    EstimateNear(w, v);
    WithinOneQuotient(Val(w), Val(v), EstimateDigit(w, v));
  }

  lemma WithinOneQuotient(w: nat, v: int, q: int)
    requires v > 0 && WithinOne(w, v, q)
    ensures w / v <= q <= w / v + 1
  {
    var k := w / v;
    assert w == v * k + w % v;
    if k > q {
      MulMonotone(q + 1, k, v);
    }
    if q > k + 1 {
      MulMonotone(k + 1, q - 1, v);
      MulDist(v, k, 1);
    }
  }

  lemma EstimateNear(w: seq<Comp>, v: seq<Comp>)
    requires |v| >= 1 && |w| == |v| + 1
    requires v[|v| - 1] >= 0x8000_0000 && Val(w) < Val(v) * B
    ensures Val(v) > 0 && WithinOne(Val(w), Val(v), EstimateDigit(w, v))
  {
    var n := |v|;
    ValTop(v);
    MulMonotone(1, v[n - 1], Pow(n - 1));
    if n == 1 {
      var t := TwoLeading(w, 1);
      assert v == [v[0]];
      ValSingle(v[0]);
      ShortEstimate(w[1], w[0], v[0]);
    } else {
      EstimateNearLong(w, v);
    }
  }

  lemma EstimateNearLong(w: seq<Comp>, v: seq<Comp>)
    requires |v| >= 2 && |w| == |v| + 1
    requires v[|v| - 1] >= 0x8000_0000 && 0 < Val(v) && Val(w) < Val(v) * B
    ensures WithinOne(Val(w), Val(v), EstimateDigit(w, v))
  {
    var n := |v|;
    var t, t3 := ThreeLeading(w, n);
    var v12 := TwoLeading(v, n - 1);
    assert v[..n - 1 + 1] == v;
    ValSnoc(v, n - 1);
    LongEstimate(Pow(n - 2), Pow(n - 1), w[n], w[n - 1], w[n - 2], t, t3, Val(w[..n - 2]), Val(w[..n - 1]),
                 v[n - 1], v[n - 2], v12, Val(v[..n - 2]), Val(v[..n - 1]), Val(w), Val(v));
  }

  /** The add-back after a wrapped subtraction: add v, then "lop off the carry".
      v comes out padded from bi_add and is cut to its own size again. */
  method AddBack(tmpU: Bigint, v: Bigint)
    requires tmpU != v && |v.comps| >= 1 && |tmpU.comps| == |v.comps| + 1
    requires tmpU.Value() + v.Value() >= Pow(|tmpU.comps|)
    modifies tmpU, v
    ensures v.comps == old(v.comps) && |tmpU.comps| == |old(tmpU.comps)|
    ensures tmpU.Value() == old(tmpU.Value()) + v.Value() - Pow(|tmpU.comps|)
  {
    ghost var m := |tmpU.comps|;
    PowMonotone(m - 1, m);
    Add(tmpU, v);
    LopCarry(tmpU.comps, m);
    tmpU.MoreComps(|tmpU.comps| - 1);
    v.MoreComps(|v.comps| - 1);
    assert v.comps == old(v.comps);
  }

  /** A trimmed sum that carries out of m components has exactly m + 1. */
  lemma LopCarry(s: seq<Comp>, m: nat)
    requires Trimmed(s) && Pow(m) <= Val(s) < 2 * Pow(m)
    ensures |s| == m + 1 && Val(s[..m]) == Val(s) - Pow(m)
  {
    TrimmedLength(s, m);
    ValSplit(s, m);
    CarryIsOne(Pow(m), Val(s[..m]), Val(s[m..]), Val(s));
  }

  lemma TrimmedLength(s: seq<Comp>, m: nat)
    requires Trimmed(s) && Pow(m) <= Val(s) < Pow(m + 1)
    ensures |s| == m + 1
  {
    if |s| <= m {
      PowMonotone(|s|, m);
    } else if |s| > m + 1 {
      ValTop(s);
      MulMonotone(1, s[|s| - 1], Pow(|s| - 1));
      PowMonotone(m + 1, |s| - 1);
    }
  }

  lemma CarryIsOne(p: int, low: int, top: int, x: int)
    requires x == low + p * top && 0 <= low < p <= x < 2 * p
    ensures x == low + p
  {
    if top >= 2 {
      MulMonotone(2, top, p);
    } else if top <= 0 {
      MulMonotone(top, 0, p);
    }
  }

  /** tmpU - v * q modulo B^(n+1), and whether it wrapped. */
  method SubtractProduct(tmpU: Bigint, v: Bigint, q: Comp) returns (isNegative: bool)
    requires tmpU != v && |v.comps| >= 1 && |tmpU.comps| == |v.comps| + 1
    modifies tmpU
    ensures |tmpU.comps| == |v.comps| + 1
    ensures isNegative <==> old(tmpU.Value()) < v.Value() * q
    ensures tmpU.Value() == old(tmpU.Value()) - v.Value() * q + if isNegative then Pow(|tmpU.comps|) else 0
  {
    var n := |v.comps|;
    var product := IntMultiply(v, q);
    ghost var pv := product.Value();
    isNegative := Subtract(tmpU, product);
    assert tmpU.Value() == old(tmpU.Value()) - pv + if isNegative then Pow(n + 1) else 0;
    tmpU.MoreComps(n + 1);
  }

  /** The body of bi_divide's loop on one window: estimate, multiply and subtract,
      and add v back when the subtraction wrapped. */
  method DivideWindow(tmpU: Bigint, v: Bigint) returns (digit: Comp)
    requires tmpU != v && |v.comps| >= 1 && |tmpU.comps| == |v.comps| + 1
    requires v.comps[|v.comps| - 1] >= 0x8000_0000 && tmpU.Value() < v.Value() * B
    modifies tmpU, v
    ensures v.comps == old(v.comps) && |tmpU.comps| == |old(tmpU.comps)|
    ensures old(tmpU.Value()) == v.Value() * digit + tmpU.Value() && tmpU.Value() < v.Value()
  {
    ghost var w, d := tmpU.Value(), v.Value();
    EstimateNear(tmpU.comps, v.comps);
    var qDash := EstimateDigit(tmpU.comps, v.comps);
    NearProduct(w, d, qDash);
    digit := qDash;
    if qDash != 0 {
      var isNegative := SubtractProduct(tmpU, v, qDash);
      if isNegative {
        digit := qDash - 1;
        AddBack(tmpU, v);
      }
    }
  }

  /** The two possible positions of w against v * q. */
  lemma NearProduct(w: nat, v: int, q: Comp)
    requires v > 0 && WithinOne(w, v, q)
    ensures q == 0 ==> v * q == 0
    ensures v * q <= w ==> w - v * q < v
    ensures v * q > w ==> q >= 1 && v * (q as int - 1) == v * q - v && 0 <= w - v * q + v < v
  {
    assert (q as int - 1) * v == v * q - v;
    assert (q as int + 1) * v == v * q + v;
    assert q == 0 ==> v * q == 0;
  }

  /** The invariant of bi_divide's loop once positions p and above are done: the part
      of the dividend x above position p is below the divisor d, and no quotient
      digit is set below p. The other half of the invariant is that the value of x
      plus d times the quotient so far never changes. */
  ghost predicate Dividing(x: seq<Comp>, qs: seq<Comp>, d: int, n: nat, p: nat) {
    && |x| == |qs| + n && p <= |qs|
    && Val(x[p..]) < d < Pow(n)
    && (forall i :: 0 <= i < p ==> qs[i] == 0)
  }

  /** The next window is x from position p on, and is below d * B. */
  lemma NextWindow(x: seq<Comp>, qs: seq<Comp>, d: int, n: nat, p: nat)
    requires Dividing(x, qs, d, n, p + 1)
    ensures Val(x[p..p + n + 1]) == Val(x[p..]) < d * B
    ensures Val(x[p + n + 1..]) == 0
  {
    ValTail(x, p);
    WindowArith(x[p], Val(x[p + 1..]), d, Pow(n));
    assert Pow(n + 1) == B * Pow(n);
    ValHighZero(x[p..], n + 1);
    assert x[p..][n + 1..] == x[p + n + 1..] && x[p..][..n + 1] == x[p..p + n + 1];
  }

  lemma WindowArith(c: Comp, above: int, d: int, pn: int)
    requires above < d < pn
    ensures c + B * above < d * B && c + B * above < B * pn
  {
  }

  /** Replacing a window that has only zeros above it. */
  lemma ReplaceWindow(x: seq<Comp>, p: nat, t: seq<Comp>)
    requires p + |t| <= |x| && Val(x[p + |t|..]) == 0
    ensures var x' := x[..p] + t + x[p + |t|..];
            Val(x'[p..]) == Val(t) && Val(x') == Val(x) - Pow(p) * Val(x[p..]) + Pow(p) * Val(t)
  {
    var x', above := x[..p] + t + x[p + |t|..], x[p + |t|..];
    assert x'[p..] == t + above && x'[..p] == x[..p];
    ValConcat(t, above);
    assert Pow(|t|) * Val(above) == 0;
    ValSplit(x, p);
    ValSplit(x', p);
  }

  /** One digit of the loop: window t replaces x's window, and the digit goes to
      position p. */
  lemma DividingStep(x: seq<Comp>, qs: seq<Comp>, d: int, n: nat, p: nat, t: seq<Comp>, digit: Comp)
    requires Dividing(x, qs, d, n, p + 1)
    requires |t| == n + 1 && Val(x[p..p + n + 1]) == d * digit + Val(t) && Val(t) < d
    ensures var x', qs' := x[..p] + t + x[p + n + 1..], qs[p := digit];
            Dividing(x', qs', d, n, p) && Val(x') + d * Val(qs') == Val(x) + d * Val(qs)
  {
    NextWindow(x, qs, d, n, p);
    ReplaceWindow(x, p, t);
    ValUpdate(qs, p, digit);
    DigitArith(Pow(p), d, digit, Val(x[p..]), Val(t), Val(qs), Val(qs[p := digit]));
  }

  lemma DigitArith(p: int, d: int, digit: int, window: int, left: int, above: int, above': int)
    requires window == d * digit + left && above' == above + p * digit
    ensures p * window + d * above == p * left + d * above'
  {
    assert p * window == p * (d * digit) + p * left;
    assert d * above' == d * above + d * (p * digit);
    assert p * (d * digit) == d * (p * digit);
  }

  /** The normalising factor d = B / (v1 + 1). */
  function Normaliser(v1: Comp): (d: Comp)
    requires 0 < v1 < B - 1
    ensures Normalises(v1, d)
  {
    NormaliserBound(v1);
    B / (v1 + 1)
  }

  /** Scaling by d brings v1 into the upper half of a component, and no further. */
  ghost predicate Normalises(v1: Comp, d: int) {
    1 <= d < B && d * (v1 + 1) <= B && 0x8000_0000 <= d * v1
  }

  lemma NormaliserBound(v1: Comp)
    requires 0 < v1 < B - 1
    ensures Normalises(v1, B / (v1 as int + 1))
  {
    var k := v1 as int + 1;
    var d := B / k;
    assert B == k * d + B % k;
    QuotientBelow(B, k, B);
    if d < 1 {
      MulMonotone(d, 0, k);
    }
    assert (d + 1) * k == k * d + k;
    assert (d + 1) * k == d * v1 + d + v1 + 1;
    assert (v1 as int - 1) * (d - 1) == d * v1 - v1 - d + 1;
    MulMonotone(0, v1 - 1, d - 1);
  }

  /** A number of exactly n components lies between B^(n-1) and B^n. */
  lemma LengthFromValue(s: seq<Comp>, n: nat)
    requires Trimmed(s) && n >= 1 && Pow(n - 1) <= Val(s) < Pow(n)
    ensures |s| == n
  {
    TrimmedLength(s, n - 1);
  }

  /** The scaled divisor keeps its length and gets its top component into the
      upper half. */
  lemma NormalisedDivisor(v: seq<Comp>, d: Comp, w: seq<Comp>)
    requires Trimmed(v) && Normalises(v[|v| - 1], d)
    requires Trimmed(w) && Val(w) == Val(v) * d
    ensures |w| == |v| && w[|w| - 1] >= 0x8000_0000
  {
    var n, v1 := |v|, v[|v| - 1];
    var p := Pow(n - 1);
    ValTop(v);
    ScaleBounds(p, v1, d, Val(v), Val(w));
    LengthFromValue(w, n);
    ValTop(w);
    if w[n - 1] < 0x8000_0000 {
      MulMonotone(1 + w[n - 1] as int, 0x8000_0000, p);
    }
  }

  lemma ScaleBounds(p: int, v1: int, d: int, v: int, w: int)
    requires p > 0 && d >= 1 && w == v * d && p * v1 <= v < p * (v1 + 1)
    requires d * (v1 + 1) <= B && 0x8000_0000 <= d * v1
    ensures p * 0x8000_0000 <= w < B * p && p <= w
  {
    MulMonotone(p * v1, v, d);
    MulStrict(v, p * (v1 + 1), d);
    Rescale(p, v1, d);
    Rescale(p, v1 + 1, d);
    MulMonotone(0x8000_0000, d * v1, p);
    MulMonotone(d * (v1 + 1), B, p);
  }

  lemma Rescale(p: int, x: int, d: int)
    ensures (p * x) * d == p * (d * x)
  {
  }

  /** The scaled dividend with one extra position: what lies above position m + 1
      is below the scaled divisor w. */
  lemma NormalisedDividend(x: seq<Comp>, u: seq<Comp>, d: Comp, n: nat, w: int)
    requires 1 <= n <= |u| && |x| == |u| + 1 && d >= 1
    requires Val(x) == Val(u) * d && w >= d * Pow(n - 1)
    ensures Val(x[|u| + 1 - n..]) < w
  {
    var k := |u| + 1 - n;
    ValSplit(x, k);
    PowAdd(k, n - 1);
    DividendArith(Pow(k), Pow(n - 1), Pow(|u|), d, Val(u), Val(x), Val(x[..k]), Val(x[k..]), w);
  }

  lemma ScaledDivisorBound(v: seq<Comp>, d: Comp, w: int)
    requires |v| >= 1 && v[|v| - 1] > 0 && w == Val(v) * d
    ensures w >= d * Pow(|v| - 1)
  {
    ValTop(v);
    MulMonotone(1, v[|v| - 1], Pow(|v| - 1));
    MulMonotone(Pow(|v| - 1), Val(v), d);
  }

  lemma DividendArith(pk: int, pn: int, pu: int, d: int, u: int, x: int, low: int, high: int, v: int)
    requires pk > 0 && pn > 0 && pu == pk * pn && 0 <= u < pu && d >= 1 && x == u * d
    requires x == low + pk * high && 0 <= low && v >= d * pn
    ensures high < v
  {
    MulStrict(u, pu, d);
    assert pk * (d * pn) == pu * d;
    if high >= v {
      MulMonotone(d * pn, high, pk);
    }
  }

  /** Dividing scaled operands: the quotient is that of the operands themselves,
      and the remainder is theirs scaled, so scaling it down is exact. */
  lemma Unscale(u: nat, v: int, d: int, x: int, w: int, q: nat, rem: nat)
    requires v > 0 && d > 0 && x == u * d && w == v * d
    requires x == w * q + rem && rem < w
    ensures q == u / v && rem / d == u % v
  {
    var r := u - v * q;
    assert rem == r * d by {
      assert (v * d) * q == (v * q) * d;
      assert (u - v * q) * d == u * d - (v * q) * d;
    }
    if r < 0 {
      MulMonotone(r, -1, d);
    }
    if r >= v {
      MulMonotone(v, r, d);
    }
    QuotientUnique(u, v, q, r);
    QuotientUnique(rem, d, r, 0);
  }

  /** bi_divide's do-while loop on a normalised divisor: u becomes the remainder. */
  method DivideLoop(u: Bigint, v: Bigint, m: nat) returns (quotient: Bigint)
    requires u != v && |v.comps| >= 1 && |u.comps| == |v.comps| + m + 1
    requires v.comps[|v.comps| - 1] >= 0x8000_0000 && Val(u.comps[m + 1..]) < v.Value()
    modifies u, v
    ensures fresh(quotient) && |quotient.comps| >= 1
    ensures v.comps == old(v.comps) && |u.comps| == |old(u.comps)|
    ensures old(u.Value()) == v.Value() * quotient.Value() + u.Value() && u.Value() < v.Value()
  {
    var n := |v.comps|;
    ghost var d, total := v.Value(), u.Value();
    quotient := new Bigint(Zeros(m + 1));
    var tmpU := new Bigint(Zeros(n + 1));
    ValZeros(m + 1);
    var j := 0;
    while j <= m
      invariant 0 <= j <= m + 1
      invariant v.comps == old(v.comps) && |u.comps| == n + m + 1 && |quotient.comps| == m + 1
      invariant Dividing(u.comps, quotient.comps, d, n, m + 1 - j)
      invariant u.Value() + d * quotient.Value() == total
    {
      var p := m - j;
      NextWindow(u.comps, quotient.comps, d, n, p);
      tmpU.comps := u.comps[p..p + n + 1];
      ghost var x, qs := u.comps, quotient.comps;
      var digit := DivideWindow(tmpU, v);
      DividingStep(x, qs, d, n, p, tmpU.comps, digit);
      quotient.comps := quotient.comps[p := digit];
      u.comps := u.comps[..p] + tmpU.comps + u.comps[p + n + 1..];
      j := j + 1;
    }
    assert u.comps[0..] == u.comps;
  }

  /** The part of bi_divide after the size test: normalise, divide, and in modulus
      mode scale the remainder down again. */
  method LongDivide(u: Bigint, v: Bigint, normalisedMod: Bigint?, isMod: bool) returns (r: Bigint)
    requires u != v && Trimmed(u.comps) && Trimmed(v.comps) && |u.comps| >= |v.comps|
    requires 0 < v.comps[|v.comps| - 1] < B - 1 && v.Value() > 0
    requires isMod ==> normalisedMod != null && normalisedMod != u && normalisedMod != v
                       && NormalisedModulus(v.comps, normalisedMod.comps)
    modifies u, v, normalisedMod
    ensures Trimmed(r.comps) && (r == u || fresh(r))
    ensures r.Value() == if isMod then old(u.Value()) % old(v.Value()) else old(u.Value()) / old(v.Value())
    ensures v.comps == old(v.comps)
    ensures normalisedMod != null && normalisedMod != u ==> normalisedMod.comps == old(normalisedMod.comps)
  {
    ghost var us, u0, v0 := u.comps, u.Value(), v.Value();
    var m := |u.comps| - |v.comps|;
    var d := Normaliser(v.comps[|v.comps| - 1]);
    var x, w := Normalise(u, v, normalisedMod, isMod, d);
    ScaledDivisorBound(v.comps, d, w.Value());
    NormalisedDividend(x.comps, us, d, |v.comps|, w.Value());
    ghost var x0, w0 := x.Value(), w.Value();
    var quotient := DivideLoop(x, w, m);
    assert v.comps == old(v.comps);
    Unscale(u0, v0, d, x0, w0, quotient.Value(), x.Value());
    if isMod {
      x.Trim();
      IntDivide(x, d);
      r := x;
    } else {
      quotient.Trim();
      r := quotient;
    }
  }

  /** bi_divide: the quotient, or with isMod the remainder. In modulus mode v is a
      stored modulus and `normalisedMod` its stored multiple. The source computes
      V1 + 1 in 32 bits, so it needs a divisor whose top component is not B - 1. */
  method Divide(u: Bigint, v: Bigint, normalisedMod: Bigint?, isMod: bool) returns (r: Bigint)
    requires u != v && Trimmed(u.comps) && Trimmed(v.comps) && v.Value() > 0
    requires v.comps[|v.comps| - 1] < B - 1
    requires !isMod ==> |u.comps| >= |v.comps|
    requires isMod ==> normalisedMod != null && normalisedMod != u && normalisedMod != v
                       && NormalisedModulus(v.comps, normalisedMod.comps)
    modifies u, v, normalisedMod
    ensures Trimmed(r.comps) && (r == u || fresh(r))
    ensures r.Value() == if isMod then old(u.Value()) % old(v.Value()) else old(u.Value()) / old(v.Value())
    ensures v.comps == old(v.comps)
    ensures normalisedMod != null && normalisedMod != u ==> normalisedMod.comps == old(normalisedMod.comps)
  {
    TopNotZero(v.comps);
    if isMod {
      var order := Compare(v, u);
      if order > 0 {
        QuotientUnique(u.Value(), v.Value(), 0, u.Value());
        return u;
      }
      if |u.comps| < |v.comps| {
        ValLonger(u.comps, v.comps);
      }
    }
    r := LongDivide(u, v, normalisedMod, isMod);
  }

  /** The normalising step of bi_divide: u * d with one extra position, and v * d,
      which in modulus mode is the stored multiple. */
  method Normalise(u: Bigint, v: Bigint, normalisedMod: Bigint?, isMod: bool, d: Comp) returns (x: Bigint, w: Bigint)
    requires u != v && Trimmed(u.comps) && Trimmed(v.comps) && |u.comps| >= |v.comps|
    requires Normalises(v.comps[|v.comps| - 1], d)
    requires isMod ==> normalisedMod != null && normalisedMod != u && normalisedMod != v
                       && Trimmed(normalisedMod.comps) && normalisedMod.Value() == v.Value() * d
    modifies u
    ensures x == u || fresh(x)
    ensures w == v || (isMod && w == normalisedMod) || fresh(w)
    ensures x != w
    ensures |x.comps| == |old(u.comps)| + 1 && x.Value() == old(u.Value()) * d
    ensures |w.comps| == |v.comps| && w.Value() == v.Value() * d && w.comps[|w.comps| - 1] >= 0x8000_0000
  {
    var origUSize := |u.comps|;
    ghost var u0 := u.comps;
    x, w := u, v;
    if d > 1 {
      x := IntMultiply(u, d);
      ScaledLength(u0, d, x.comps);
      if isMod {
        w := normalisedMod;
      } else {
        w := IntMultiply(v, d);
      }
    }
    if origUSize == |x.comps| {
      x.MoreComps(origUSize + 1);
    }
    NormalisedDivisor(v.comps, d, w.comps);
  }

  /** What bi_set_mod stores as the normalised modulus. */
  ghost predicate NormalisedModulus(v: seq<Comp>, w: seq<Comp>) {
    && Trimmed(v) && 0 < v[|v| - 1] < B - 1
    && Trimmed(w) && Val(w) == Val(v) * Normaliser(v[|v| - 1])
  }

  lemma TopNotZero(v: seq<Comp>)
    requires Trimmed(v) && Val(v) > 0
    ensures v[|v| - 1] > 0
  {
    if |v| == 1 {
      assert v == [v[0]];
      ValSingle(v[0]);
    }
  }

  /** Scaling by one component adds at most one component. */
  lemma ScaledLength(u: seq<Comp>, d: Comp, x: seq<Comp>)
    requires Trimmed(u) && d >= 1 && Trimmed(x) && |x| <= |u| + 1 && Val(x) == Val(u) * d
    ensures |u| <= |x| <= |u| + 1
  {
    MulMonotone(1, d, Val(u));
    if |x| < |u| {
      ValLonger(x, u);
    }
  }
}
