/** The `bigint` object of crypto/bigint.c: a growable little-endian component
    buffer, and the operations that update it in place. `|comps|` is the C
    field `size`; the spare capacity `max_comps` is not visible here. */
module Bigint {
  import opened Arith
  import opened Digits

  /** What more_comps leaves behind: zero-extended, or cut when n is smaller. */
  function Resize(s: seq<Comp>, n: nat): (r: seq<Comp>)
    ensures |r| == n
    ensures |s| <= n ==> Val(r) == Val(s)
  {
    if n <= |s| then
      assert n == |s| ==> s[..n] == s;
      s[..n]
    else
      ValPad(s, n - |s|);
      s + Zeros(n - |s|)
  }

  /** Leading zero components dropped, keeping at least one component. */
  function DropLeadingZeros(s: seq<Comp>): (r: seq<Comp>)
    requires |s| >= 1
    ensures Trimmed(r) && Val(r) == Val(s)
    ensures |r| <= |s| && r == s[..|r|]
    ensures Trimmed(s) ==> r == s
  {
    if |s| == 1 || s[|s| - 1] != 0 then
      s
    else
      ValSnoc(s, |s| - 1);
      assert s[..|s| - 1 + 1] == s;
      DropLeadingZeros(s[..|s| - 1])
  }

  /** Trimmed components are determined by the number they stand for. */
  lemma TrimmedUnique(s: seq<Comp>, t: seq<Comp>)
    requires Trimmed(s) && Trimmed(t) && Val(s) == Val(t)
    ensures s == t
  {
    if |s| < |t| {
      ValLonger(s, t);
    } else if |t| < |s| {
      ValLonger(t, s);
    } else {
      ValInjective(s, t);
    }
  }

  class Bigint {
    var comps: seq<Comp>

    constructor (s: seq<Comp>)
      ensures comps == s
    {
      comps := s;
    }

    ghost function Value(): nat
      reads this
    {
      Val(comps)
    }

    /** more_comps */
    method MoreComps(n: nat)
      modifies this
      ensures comps == Resize(old(comps), n)
    {
      if n > |comps| {
        comps := comps + Zeros(n - |comps|);
      } else {
        comps := comps[..n];
      }
    }

    /** trim */
    method Trim()
      requires |comps| >= 1
      modifies this
      ensures comps == DropLeadingZeros(old(comps))
    {
      while |comps| > 1 && comps[|comps| - 1] == 0
        invariant |comps| >= 1
        invariant DropLeadingZeros(comps) == DropLeadingZeros(old(comps))
        decreases |comps|
      {
        comps := comps[..|comps| - 1];
      }
    }
  }

  /** bi_clone */
  method Clone(bi: Bigint) returns (r: Bigint)
    ensures fresh(r) && r.comps == bi.comps
  {
    r := new Bigint(bi.comps);
  }

  /** The three-way order bi_compare reports. */
  function Sign(x: int, y: int): int {
    if x > y then 1 else if x < y then -1 else 0
  }

  /** bi_compare */
  method Compare(a: Bigint, b: Bigint) returns (r: int)
    requires Trimmed(a.comps) && Trimmed(b.comps)
    ensures r == Sign(a.Value(), b.Value())
  {
    var s, t := a.comps, b.comps;
    if |s| > |t| {
      ValLonger(t, s);
      return 1;
    } else if |s| < |t| {
      ValLonger(s, t);
      return -1;
    }
    var i := |s| - 1;
    while i >= 0
      invariant -1 <= i < |s|
      invariant forall k :: i < k < |s| ==> s[k] == t[k]
    {
      if s[i] > t[i] {
        CompareAt(t, s, i);
        return 1;
      } else if s[i] < t[i] {
        CompareAt(s, t, i);
        return -1;
      }
      i := i - 1;
    }
    assert s == t;
    return 0;
  }

  /** The highest differing component decides the order. */
  lemma CompareAt(s: seq<Comp>, t: seq<Comp>, i: nat)
    requires i < |s| == |t| && s[i] < t[i]
    requires forall k :: i < k < |s| ==> s[k] == t[k]
    ensures Val(s) < Val(t)
  {
    assert s[i + 1..] == t[i + 1..];
    ValSplit(s, i + 1);
    ValSplit(t, i + 1);
    PrefixBelow(s, t, i);
  }

  /** The add-with-carry of one component (bi_add's loop body). */
  function AddDigit(x: Comp, y: Comp, carry: Comp): (r: (Comp, Comp))
    requires carry <= 1
    ensures r.0 + B * r.1 == x + y + carry && r.1 <= 1
  {
    var sl := Low(x + y);
    var rl := Low(sl + carry);
    (rl, if sl < x || rl < sl then 1 else 0)
  }

  /** The subtract-with-borrow of one component (bi_subtract's loop body). */
  function SubtractDigit(x: Comp, y: Comp, carry: Comp): (r: (Comp, Comp))
    requires carry <= 1
    ensures r.0 + y + carry == x + B * r.1 && r.1 <= 1
  {
    var sl := Low(x - y);
    var rl := Low(sl - carry);
    (rl, if sl > x || rl > sl then 1 else 0)
  }

  /** Multiply-accumulate of one component: low half and carry of acc + x * y + carry,
      which never exceeds two components. */
  function MulAddDigit(acc: Comp, x: Comp, y: Comp, carry: Comp): (r: (Comp, Comp))
    ensures r.0 + B * r.1 == acc + x * y + carry
  {
    var tmp: int := acc as int + Mul(x, y) + carry;
    (Low(tmp), High(tmp))
  }

  /** The loop invariant of bi_add after i components: r holds the low part of x + y. */
  ghost predicate Added(r: seq<Comp>, x: seq<Comp>, y: seq<Comp>, i: nat, carry: Comp) {
    && i <= |y| < |x| == |r| && carry <= 1
    && r[i..] == x[i..]
    && Val(r[..i]) + Pow(i) * carry == Val(x[..i]) + Val(y[..i])
  }

  lemma AddStep(r: seq<Comp>, x: seq<Comp>, y: seq<Comp>, i: nat, carry: Comp, d: (Comp, Comp))
    requires Added(r, x, y, i, carry) && i < |y|
    requires d == AddDigit(r[i], y[i], carry)
    ensures Added(r[i := d.0], x, y, i + 1, d.1)
  {
    var r' := r[i := d.0];
    assert r'[..i] == r[..i] && r[i] == r[i..][0] == x[i..][0] && r'[i + 1..] == r[i..][1..] == x[i + 1..];
    ValSnoc(r', i);
    ValSnoc(x, i);
    ValSnoc(y, i);
    CarryAdd(Pow(i), d.0, d.1, x[i], y[i], carry);
  }

  /** A balanced component, scaled to position p. */
  lemma CarryAdd(p: int, low: int, high: int, x: int, y: int, carry: int)
    requires low + B * high == x + y + carry
    ensures p * low + (B * p) * high == p * x + p * y + p * carry
  {
    assert p * (low + B * high) == p * low + (B * p) * high;
    assert p * (x + y + carry) == p * x + p * y + p * carry;
  }

  lemma AddDone(r: seq<Comp>, x: seq<Comp>, y: seq<Comp>, carry: Comp)
    requires Added(r, x, y, |y|, carry) && |x| == |y| + 1 && x[|y|] == 0
    ensures Val(r[|y| := carry]) == Val(x) + Val(y)
  {
    var n, r' := |y|, r[|y| := carry];
    assert r'[..n] == r[..n] && r'[..n + 1] == r' && x[..n + 1] == x && y[..n] == y;
    ValSnoc(r', n);
    ValSnoc(x, n);
  }

  lemma PrefixBelow(s: seq<Comp>, t: seq<Comp>, i: nat)
    requires i < |s| && i < |t| && s[i] < t[i]
    ensures Val(s[..i + 1]) < Val(t[..i + 1])
  {
    ValSnoc(s, i);
    ValSnoc(t, i);
    MulMonotone(1 + s[i] as int, t[i], Pow(i));
    MulDist(Pow(i), 1, s[i]);
  }

  function Max(m: nat, n: nat): nat {
    if m > n then m else n
  }

  /** bi_add: a := a + b. Pads b to the common length, as the source does. */
  method Add(a: Bigint, b: Bigint)
    requires a != b && |a.comps| >= 1 && |b.comps| >= 1
    modifies a, b
    ensures Trimmed(a.comps)
    ensures a.Value() == old(a.Value()) + old(b.Value())
    ensures b.comps == Resize(old(b.comps), Max(|old(a.comps)|, |old(b.comps)|))
  {
    var n := Max(|a.comps|, |b.comps|);
    a.MoreComps(n + 1);
    b.MoreComps(n);
    ghost var a0, b0 := a.comps, b.comps;
    var carry: Comp, i := 0, 0;
    while i < n
      invariant 0 <= i <= n && Added(a.comps, a0, b0, i, carry)
      invariant b.comps == b0
    {
      var d := AddDigit(a.comps[i], b.comps[i], carry);
      AddStep(a.comps, a0, b0, i, carry, d);
      a.comps := a.comps[i := d.0];
      carry, i := d.1, i + 1;
    }
    AddDone(a.comps, a0, b0, carry);
    a.comps := a.comps[n := carry];
    a.Trim();
  }

  /** The loop invariant of bi_subtract after i components. */
  ghost predicate Subtracted(r: seq<Comp>, x: seq<Comp>, y: seq<Comp>, i: nat, carry: Comp) {
    && i <= |y| == |x| == |r| && carry <= 1
    && r[i..] == x[i..]
    && Val(r[..i]) + Val(y[..i]) == Val(x[..i]) + Pow(i) * carry
  }

  lemma SubtractStep(r: seq<Comp>, x: seq<Comp>, y: seq<Comp>, i: nat, carry: Comp, d: (Comp, Comp))
    requires Subtracted(r, x, y, i, carry) && i < |y|
    requires d == SubtractDigit(r[i], y[i], carry)
    ensures Subtracted(r[i := d.0], x, y, i + 1, d.1)
  {
    var r' := r[i := d.0];
    assert r'[..i] == r[..i] && r[i] == r[i..][0] == x[i..][0] && r'[i + 1..] == r[i..][1..] == x[i + 1..];
    ValSnoc(r', i);
    ValSnoc(x, i);
    ValSnoc(y, i);
    CarryAdd(Pow(i), x[i], d.1, d.0, y[i], carry);
  }

  lemma SubtractDone(r: seq<Comp>, x: seq<Comp>, y: seq<Comp>, carry: Comp)
    requires Subtracted(r, x, y, |y|, carry)
    ensures Val(r) + Val(y) == Val(x) + if carry == 1 then Pow(|y|) else 0
    ensures carry == 1 <==> Val(x) < Val(y)
  {
    var n := |y|;
    assert r[..n] == r;
    assert x[..n] == x;
    assert y[..n] == y;
    BorrowSign(Pow(n), Val(r), Val(x), Val(y), carry);
  }

  /** The final borrow is the sign of the difference. */
  lemma BorrowSign(p: int, r: int, x: int, y: int, carry: Comp)
    requires carry <= 1 && r + y == x + p * carry && 0 <= r < p && 0 <= y
    ensures r + y == x + if carry == 1 then p else 0
    ensures y < p ==> (carry == 1 <==> x < y)
  {
    assert carry == 0 ==> p * carry == 0;
    assert carry == 1 ==> p * carry == p;
  }

  /** bi_subtract: a := a - b modulo B^|a|; the result says whether it wrapped.
      A longer b is cut to a's length, which is what more_comps does to it. */
  method Subtract(a: Bigint, b: Bigint) returns (isNegative: bool)
    requires a != b && |a.comps| >= 1
    modifies a, b
    ensures Trimmed(a.comps) && |a.comps| <= |old(a.comps)|
    ensures isNegative <==> old(a.Value()) < Val(Resize(old(b.comps), |old(a.comps)|))
    ensures a.Value() == old(a.Value()) - Val(Resize(old(b.comps), |old(a.comps)|))
                         + if isNegative then Pow(|old(a.comps)|) else 0
    ensures b.comps == DropLeadingZeros(Resize(old(b.comps), |old(a.comps)|))
  {
    var n := |a.comps|;
    b.MoreComps(n);
    ghost var a0, b0 := a.comps, b.comps;
    var carry: Comp, i := 0, 0;
    while i < n
      invariant 0 <= i <= n && Subtracted(a.comps, a0, b0, i, carry)
      invariant b.comps == b0
    {
      var d := SubtractDigit(a.comps[i], b.comps[i], carry);
      SubtractStep(a.comps, a0, b0, i, carry, d);
      a.comps := a.comps[i := d.0];
      carry, i := d.1, i + 1;
    }
    SubtractDone(a.comps, a0, b0, carry);
    isNegative := carry == 1;
    b.Trim();
    a.Trim();
  }

  /** The loop invariant of bi_int_multiply after j components. */
  ghost predicate Multiplied(r: seq<Comp>, x: seq<Comp>, y: Comp, j: nat, carry: Comp) {
    && j <= |x| < |r|
    && (forall i :: j <= i < |r| ==> r[i] == 0)
    && Val(r[..j]) + Pow(j) * carry == Val(x[..j]) * y
  }

  lemma MultiplyStep(r: seq<Comp>, x: seq<Comp>, y: Comp, j: nat, carry: Comp, d: (Comp, Comp))
    requires Multiplied(r, x, y, j, carry) && j < |x|
    requires d == MulAddDigit(r[j], x[j], y, carry)
    ensures Multiplied(r[j := d.0], x, y, j + 1, d.1)
  {
    var r' := r[j := d.0];
    assert r'[..j] == r[..j];
    ValSnoc(r', j);
    ValSnoc(x, j);
    CarryMultiply(Pow(j), d.0, d.1, Val(x[..j]), x[j], y, carry);
  }

  /** One column of a schoolbook row, scaled to position p. */
  lemma CarryMultiply(p: int, low: int, high: int, below: int, x: int, y: int, carry: int)
    requires low + B * high == x * y + carry
    ensures p * low + (B * p) * high + below * y == (below + p * x) * y + p * carry
  {
    assert p * (low + B * high) == p * low + (B * p) * high;
    assert p * (x * y + carry) == (p * x) * y + p * carry;
    assert (below + p * x) * y == below * y + (p * x) * y;
  }

  lemma MultiplyDone(r: seq<Comp>, x: seq<Comp>, y: Comp, carry: Comp)
    requires Multiplied(r, x, y, |x|, carry) && |r| == |x| + 1
    ensures Val(r[|x| := carry]) == Val(x) * y
  {
    var n, r' := |x|, r[|x| := carry];
    assert r'[..n] == r[..n] && r'[..n + 1] == r' && x[..n] == x;
    ValSnoc(r', n);
  }

  /** bi_int_multiply: a fresh a * b; the 64-bit accumulator never overflows. */
  method IntMultiply(a: Bigint, b: Comp) returns (r: Bigint)
    requires |a.comps| >= 1
    ensures fresh(r) && Trimmed(r.comps) && |r.comps| <= |a.comps| + 1
    ensures r.Value() == a.Value() * b
  {
    var n := |a.comps|;
    r := new Bigint(Zeros(n + 1));
    var carry: Comp, j := 0, 0;
    assert Val(r.comps[..0]) == Val(a.comps[..0]) == 0;
    while j < n
      invariant 0 <= j <= n && |r.comps| == n + 1 && Multiplied(r.comps, a.comps, b, j, carry)
    {
      var d := MulAddDigit(r.comps[j], a.comps[j], b, carry);
      MultiplyStep(r.comps, a.comps, b, j, carry, d);
      r.comps := r.comps[j := d.0];
      carry, j := d.1, j + 1;
    }
    MultiplyDone(r.comps, a.comps, b, carry);
    r.comps := r.comps[n := carry];
    r.Trim();
  }

  /** One step of short division: the quotient digit fits a component. */
  function DivideDigit(rem: nat, x: Comp, denom: Comp): (r: (Comp, nat))
    requires rem < denom
    ensures rem * B + x == denom * r.0 + r.1 && r.1 < denom
  {
    var acc := rem * B + x;
    QuotientBelow(acc, denom, B);
    (acc / denom, acc % denom)
  }

  /** The loop invariant of bi_int_divide with components i and above divided. */
  ghost predicate Divided(r: seq<Comp>, x: seq<Comp>, denom: Comp, i: nat, rem: nat) {
    && i <= |x| == |r| && rem < denom
    && r[..i] == x[..i]
    && Val(x[i..]) == denom * Val(r[i..]) + rem
  }

  lemma DivideStep(r: seq<Comp>, x: seq<Comp>, denom: Comp, i: nat, rem: nat, d: (Comp, nat))
    requires Divided(r, x, denom, i + 1, rem) && i < |x|
    requires d == DivideDigit(rem, r[i], denom)
    ensures Divided(r[i := d.0], x, denom, i, d.1)
  {
    var r' := r[i := d.0];
    assert r[i] == r[..i + 1][i] == x[..i + 1][i];
    assert r'[i + 1..] == r[i + 1..] && r'[..i] == r[..i + 1][..i] && x[..i] == x[..i + 1][..i];
    ValTail(x, i);
    ValTail(r', i);
    CarryDivide(denom, d.0, d.1, Val(x[i + 1..]), Val(r[i + 1..]), rem, r[i]);
  }

  lemma CarryDivide(denom: int, q: int, rem': int, vx: int, vr: int, rem: int, c: int)
    requires vx == denom * vr + rem
    requires rem * B + c == denom * q + rem'
    ensures c + B * vx == denom * (q + B * vr) + rem'
  {
    assert denom * (q + B * vr) == denom * q + B * (denom * vr);
  }

  /** bi_int_divide: in place, truncating. */
  method IntDivide(r: Bigint, denom: Comp)
    requires |r.comps| >= 1 && denom > 0
    modifies r
    ensures Trimmed(r.comps)
    ensures r.Value() == old(r.Value()) / denom
  {
    ghost var r0 := r.comps;
    var i, rem: nat := |r.comps| - 1, 0;
    assert r0[i + 1..] == [];
    while i >= 0
      invariant -1 <= i < |r0| && Divided(r.comps, r0, denom, i + 1, rem)
    {
      var d := DivideDigit(rem, r.comps[i], denom);
      DivideStep(r.comps, r0, denom, i, rem, d);
      r.comps := r.comps[i := d.0];
      rem, i := d.1, i - 1;
    }
    assert r.comps[0..] == r.comps && r0[0..] == r0;
    QuotientUnique(Val(r0), denom, Val(r.comps), rem);
    r.Trim();
  }
}
