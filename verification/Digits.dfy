/** Little-endian numbers in radix 2^32, the representation behind `bigint`:
    their value, and how the value splits at a component boundary. */
module Digits {
  import opened Arith

  /** The component radix (COMP_RADIX). */
  const B: int := 0x1_0000_0000

  /** One machine component (`comp`). */
  type Comp = c: int | 0 <= c < B

  /** The cast of a wider number to one component. */
  function Low(x: int): (c: Comp)
    ensures 0 <= x < B ==> c == x
    ensures -B <= x < 0 ==> c == x + B
    ensures B <= x < 2 * B ==> c == x - B
  {
    x % 0x1_0000_0000
  }

  /** The shift of a wider number down by one component. */
  function High(x: nat): (h: nat)
    ensures x == Low(x) + B * h
    ensures x < 0x1_0000_0000_0000_0000 ==> h < B
  {
    x / 0x1_0000_0000
  }

  /** B to the power n. */
  function Pow(n: nat): (p: nat)
    ensures p > 0
  {
    if n == 0 then 1 else B * Pow(n - 1)
  }

  /** The number that the components `s` stand for, least significant first. */
  function Val(s: seq<Comp>): (v: nat)
    ensures v < Pow(|s|)
  {
    if s == [] then 0 else s[0] + B * Val(s[1..])
  }

  /** `n` zero components. */
  function Zeros(n: nat): (s: seq<Comp>)
    ensures |s| == n && forall i :: 0 <= i < n ==> s[i] == 0
  {
    seq(n, _ => 0)
  }

  /** Components without a leading zero, except that zero itself keeps one. */
  predicate Trimmed(s: seq<Comp>) {
    |s| >= 1 && (|s| == 1 || s[|s| - 1] != 0)
  }

  lemma {:induction false} PowAdd(m: nat, n: nat)
    ensures Pow(m + n) == Pow(m) * Pow(n)
  {
    if m > 0 {
      PowAdd(m - 1, n);
      MulAssoc(B, Pow(m - 1), Pow(n));
    }
  }

  lemma {:induction false} PowMonotone(m: nat, n: nat)
    requires m <= n
    ensures Pow(m) <= Pow(n)
  {
    if m < n {
      PowMonotone(m, n - 1);
    }
  }

  lemma {:induction false} ValConcat(s: seq<Comp>, t: seq<Comp>)
    ensures Val(s + t) == Val(s) + Pow(|s|) * Val(t)
  {
    if s == [] {
      assert s + t == t;
    } else {
      assert (s + t)[1..] == s[1..] + t;
      ValConcat(s[1..], t);
      MulAssoc(B, Pow(|s| - 1), Val(t));
      assert Pow(|s|) == B * Pow(|s| - 1);
    }
  }

  lemma ValSplit(s: seq<Comp>, i: nat)
    requires i <= |s|
    ensures Val(s) == Val(s[..i]) + Pow(i) * Val(s[i..])
  {
    assert s == s[..i] + s[i..];
    ValConcat(s[..i], s[i..]);
  }

  lemma ValSingle(c: Comp)
    ensures Val([c]) == c
  {
    assert [c][1..] == [];
  }

  lemma ValSnoc(s: seq<Comp>, i: nat)
    requires i < |s|
    ensures Val(s[..i + 1]) == Val(s[..i]) + Pow(i) * s[i]
  {
    assert s[..i + 1] == s[..i] + [s[i]];
    ValConcat(s[..i], [s[i]]);
    ValSingle(s[i]);
  }

  /** Reading from the top: the suffix at i in terms of the suffix at i + 1. */
  lemma ValTail(s: seq<Comp>, i: nat)
    requires i < |s|
    ensures Val(s[i..]) == s[i] + B * Val(s[i + 1..])
  {
    assert s[i..][1..] == s[i + 1..];
  }

  lemma {:induction false} ValZeros(n: nat)
    ensures Val(Zeros(n)) == 0
  {
    if n > 0 {
      assert Zeros(n)[1..] == Zeros(n - 1);
      ValZeros(n - 1);
    }
  }

  lemma ValPad(s: seq<Comp>, n: nat)
    ensures Val(s + Zeros(n)) == Val(s)
  {
    ValConcat(s, Zeros(n));
    ValZeros(n);
  }

  /** The top component bounds a trimmed number from below. */
  lemma ValTop(s: seq<Comp>)
    requires |s| >= 1
    ensures Pow(|s| - 1) * s[|s| - 1] <= Val(s) < Pow(|s| - 1) * (1 + s[|s| - 1] as int)
  {
    var n := |s| - 1;
    assert s[..n + 1] == s;
    ValSnoc(s, n);
    MulDist(Pow(n), s[n], 1);
    assert Val(s[..n]) < Pow(n);
  }

  /** A longer trimmed number is the larger one. */
  lemma ValLonger(s: seq<Comp>, t: seq<Comp>)
    requires Trimmed(t) && 1 <= |s| < |t|
    ensures Val(s) < Val(t)
  {
    ValTop(t);
    PowMonotone(|s|, |t| - 1);
    MulMonotone(1, t[|t| - 1], Pow(|t| - 1));
  }

  /** Equal values with trimmed digits are equal digits. */
  lemma {:induction false} ValInjective(s: seq<Comp>, t: seq<Comp>)
    requires |s| == |t| && Val(s) == Val(t)
    ensures s == t
  {
    if s != [] {
      assert s[0] == t[0] && Val(s[1..]) == Val(t[1..]);
      ValInjective(s[1..], t[1..]);
      assert s == [s[0]] + s[1..] && t == [t[0]] + t[1..];
    }
  }

  /** A number small enough has only zero components above. */
  lemma {:induction false} ValHighZero(s: seq<Comp>, i: nat)
    requires i <= |s| && Val(s) < Pow(i)
    ensures Val(s[i..]) == 0 && Val(s[..i]) == Val(s)
  {
    ValSplit(s, i);
    if Val(s[i..]) > 0 {
      MulMonotone(1, Val(s[i..]), Pow(i));
    }
  }

  /** Changing one component. */
  lemma ValUpdate(s: seq<Comp>, i: nat, c: Comp)
    requires i < |s|
    ensures Val(s[i := c]) == Val(s) - Pow(i) * s[i] + Pow(i) * c
  {
    var t := s[i := c];
    assert t[..i] == s[..i] && t[i + 1..] == s[i + 1..];
    ValSplit(s, i + 1);
    ValSplit(t, i + 1);
    ValSnoc(s, i);
    ValSnoc(t, i);
  }

  /** The double-width product of two components. */
  function Mul(x: Comp, y: Comp): (p: nat)
    ensures p <= 0xFFFF_FFFE_0000_0001
  {
    MulMonotone(x, 0xFFFF_FFFF, y);
    MulMonotone(0, x, y);
    (x as int) * (y as int)
  }
}
