/** fe_invert and fe_pow22523 of ed25519/fe.c: fixed chains of squarings and products that
    raise a field element to the powers p - 2 and (p - 5) / 8. */
module FieldPower {
  import opened Machine
  import opened Arith
  import opened FieldLimbs
  import opened FieldMul

  function Power(v: int, n: nat): int {
    if n == 0 then 1 else v * Power(v, n - 1)
  }

  lemma {:induction false} PowerAdd(v: int, m: nat, n: nat)
    ensures Power(v, m + n) == Power(v, m) * Power(v, n)
  {
    if m > 0 {
      PowerAdd(v, m - 1, n);
      MulAssoc(v, Power(v, m - 1), Power(v, n));
    }
  }

  lemma PowerOne(v: int)
    ensures Power(v, 1) == v
  {
    assert Power(v, 0) == 1;
  }

  lemma CongruentProduct(a: int, b: int, c: int, d: int)
    requires Congruent(a, b) && Congruent(c, d)
    ensures Congruent(a * c, b * d)
  {
    var j, k := a / P - b / P, c / P - d / P;
    assert a == b + P * j && c == d + P * k;
    MulDist(a, d, P * k);
    MulDist(d, b, P * j);
    MulAssoc(a, P, k);
    MulAssoc(d, P, j);
    assert a * c == b * d + P * (d * j + a * k) by {
      MulAssoc(P, d, j);
      MulAssoc(P, a, k);
      MulDist(P, d * j, a * k);
    }
    CongruentBy(a * c, b * d, d * j + a * k);
  }

  /** A product of powers is the power to the sum of the exponents. */
  lemma ProductRaised(r: int, a: int, b: int, v: int, m: nat, n: nat)
    requires Congruent(r, a * b) && Congruent(a, Power(v, m)) && Congruent(b, Power(v, n))
    ensures Congruent(r, Power(v, m + n))
  {
    CongruentProduct(a, Power(v, m), b, Power(v, n));
    PowerAdd(v, m, n);
  }

  lemma PowersOfTwo()
    ensures Pow2(1) == 2 && Pow2(2) == 4 && Pow2(5) == 0x20 && Pow2(10) == 0x400 && Pow2(20) == 0x10_0000
    ensures Pow2(50) == 0x4_0000_0000_0000 && Pow2(100) == 0x10_0000_0000_0000_0000_0000_0000
  {
    assert Pow2(1) == 2;
    assert Pow2(3) == 8;
    assert Pow2(5) == 32;
    Pow2Add(5, 5);
    Pow2Add(10, 10);
    Pow2Add(20, 20);
    Pow2Add(40, 10);
    Pow2Add(50, 50);
  }

  /** x is v to the power n, within the input bounds. Lemma RaisedIs opens the definition. */
  ghost predicate Raised(x: Limbs, v: int, n: nat, fold: nat := 3) {
    if fold > 0 then Raised(x, v, n, fold - 1) else Loose(x) && Congruent(Val(x), Power(v, n))
  }

  lemma {:induction false} RaisedIs(x: Limbs, v: int, n: nat, fold: nat := 3)
    ensures Raised(x, v, n, fold) == (Loose(x) && Congruent(Val(x), Power(v, n)))
  {
    if fold > 0 {
      RaisedIs(x, v, n, fold - 1);
    }
  }

  /** fe_mul on powers of the same element. */
  method MulRaised(f: Limbs, g: Limbs, ghost v: int, ghost m: nat, ghost n: nat, ghost e: nat) returns (h: Limbs)
    requires Raised(f, v, m) && Raised(g, v, n) && e == m + n
    ensures Raised(h, v, e) && Tight(h)
  {
    RaisedIs(f, v, m);
    RaisedIs(g, v, n);
    h := Multiply(f, g);
    ProductRaised(Val(h), Val(f), Val(g), v, m, n);
    RaisedIs(h, v, e);
  }

  /** fe_sq once, then again on the result until it has been done count times. */
  method SquareTimes(s: Limbs, count: nat, ghost v: int, ghost n: nat, ghost e: nat) returns (t: Limbs)
    requires count >= 1 && Raised(s, v, n) && e == n * Pow2(count)
    ensures Raised(t, v, e)
  {
    RaisedIs(s, v, n);
    t := Squared(s);
    ProductRaised(Val(t), Val(s), Val(s), v, n, n);
    assert Pow2(1) == 2 * Pow2(0);
    var i := 1;
    while i < count
      invariant 1 <= i <= count
      invariant Tight(t) && Congruent(Val(t), Power(v, n * Pow2(i)))
    {
      ghost var b, d := Val(t), n * Pow2(i);
      t := Squared(t);
      ProductRaised(Val(t), b, b, v, d, d);
      assert n * Pow2(i + 1) == d + d by {
        MulAssoc(n, 2, Pow2(i));
        MulAssoc(2, n, Pow2(i));
      }
      i := i + 1;
    }
    RaisedIs(t, v, e);
  }

  /** fe_invert: the power p - 2, which inverts by Fermat's little theorem. */
  method Invert(out: array<Int32>, z: array<Int32>)
    requires out.Length == 10 && z.Length == 10 && Loose(Of(z[..]))
    modifies out
    ensures Tight(Of(out[..])) && Congruent(Val(Of(out[..])), Power(old(Val(Of(z[..]))), P - 2))
  {
    var a := Of(z[..]);
    var r := InvertLimbs(a);
    Write(out, r);
  }

  method InvertLimbs(z: Limbs) returns (out: Limbs)
    requires Loose(z)
    ensures Tight(out) && Congruent(Val(out), Power(Val(z), P - 2))
  {
    ghost var v := Val(z);
    PowerOne(v);
    PowersOfTwo();
    RaisedIs(z, v, 1);
    var t0 := SquareTimes(z, 1, v, 0x1, 0x2);
    var t1 := SquareTimes(t0, 2, v, 0x2, 0x8);
    t1 := MulRaised(z, t1, v, 0x1, 0x8, 0x9);
    t0 := MulRaised(t0, t1, v, 0x2, 0x9, 0xb);
    var t2 := SquareTimes(t0, 1, v, 0xb, 0x16);
    t1 := MulRaised(t1, t2, v, 0x9, 0x16, 0x1f);
    t2 := SquareTimes(t1, 5, v, 0x1f, 0x3e0);
    t1 := MulRaised(t2, t1, v, 0x3e0, 0x1f, 0x3ff);
    t2 := SquareTimes(t1, 10, v, 0x3ff, 0xffc00);
    t2 := MulRaised(t2, t1, v, 0xffc00, 0x3ff, 0xfffff);
    var t3 := SquareTimes(t2, 20, v, 0xfffff, 0xfffff00000);
    t2 := MulRaised(t3, t2, v, 0xfffff00000, 0xfffff, 0xffffffffff);
    t2 := SquareTimes(t2, 10, v, 0xffffffffff, 0x3fffffffffc00);
    t1 := MulRaised(t2, t1, v, 0x3fffffffffc00, 0x3ff, 0x3ffffffffffff);
    t2 := SquareTimes(t1, 50, v, 0x3ffffffffffff, 0xffffffffffffc000000000000);
    t2 := MulRaised(t2, t1, v, 0xffffffffffffc000000000000, 0x3ffffffffffff, 0xfffffffffffffffffffffffff);
    t3 := SquareTimes(t2, 100, v, 0xfffffffffffffffffffffffff, 0xfffffffffffffffffffffffff0000000000000000000000000);
    t2 := MulRaised(t3, t2, v, 0xfffffffffffffffffffffffff0000000000000000000000000, 0xfffffffffffffffffffffffff,
        0xffffffffffffffffffffffffffffffffffffffffffffffffff);
    t2 := SquareTimes(t2, 50, v, 0xffffffffffffffffffffffffffffffffffffffffffffffffff,
        0x3fffffffffffffffffffffffffffffffffffffffffffffffffc000000000000);
    t1 := MulRaised(t2, t1, v, 0x3fffffffffffffffffffffffffffffffffffffffffffffffffc000000000000, 0x3ffffffffffff,
        0x3ffffffffffffffffffffffffffffffffffffffffffffffffffffffffffffff);
    t1 := SquareTimes(t1, 5, v, 0x3ffffffffffffffffffffffffffffffffffffffffffffffffffffffffffffff,
        0x7fffffffffffffffffffffffffffffffffffffffffffffffffffffffffffffe0);
    out := MulRaised(t1, t0, v, 0x7fffffffffffffffffffffffffffffffffffffffffffffffffffffffffffffe0, 0xb,
        0x7fffffffffffffffffffffffffffffffffffffffffffffffffffffffffffffeb);
    RaisedIs(out, v, P - 2);
  }

  /** fe_pow22523: the power 2^252 - 3. */
  method Power22523(out: array<Int32>, z: array<Int32>)
    requires out.Length == 10 && z.Length == 10 && Loose(Of(z[..]))
    modifies out
    ensures Tight(Of(out[..])) && Congruent(Val(Of(out[..])), Power(old(Val(Of(z[..]))), (P - 5) / 8))
  {
    var a := Of(z[..]);
    var r := Power22523Limbs(a);
    Write(out, r);
  }

  method Power22523Limbs(z: Limbs) returns (out: Limbs)
    requires Loose(z)
    ensures Tight(out) && Congruent(Val(out), Power(Val(z), (P - 5) / 8))
  {
    ghost var v := Val(z);
    PowerOne(v);
    PowersOfTwo();
    RaisedIs(z, v, 1);
    var t0 := SquareTimes(z, 1, v, 0x1, 0x2);
    var t1 := SquareTimes(t0, 2, v, 0x2, 0x8);
    t1 := MulRaised(z, t1, v, 0x1, 0x8, 0x9);
    t0 := MulRaised(t0, t1, v, 0x2, 0x9, 0xb);
    t0 := SquareTimes(t0, 1, v, 0xb, 0x16);
    t0 := MulRaised(t1, t0, v, 0x9, 0x16, 0x1f);
    t1 := SquareTimes(t0, 5, v, 0x1f, 0x3e0);
    t0 := MulRaised(t1, t0, v, 0x3e0, 0x1f, 0x3ff);
    t1 := SquareTimes(t0, 10, v, 0x3ff, 0xffc00);
    t1 := MulRaised(t1, t0, v, 0xffc00, 0x3ff, 0xfffff);
    var t2 := SquareTimes(t1, 20, v, 0xfffff, 0xfffff00000);
    t1 := MulRaised(t2, t1, v, 0xfffff00000, 0xfffff, 0xffffffffff);
    t1 := SquareTimes(t1, 10, v, 0xffffffffff, 0x3fffffffffc00);
    t0 := MulRaised(t1, t0, v, 0x3fffffffffc00, 0x3ff, 0x3ffffffffffff);
    t1 := SquareTimes(t0, 50, v, 0x3ffffffffffff, 0xffffffffffffc000000000000);
    t1 := MulRaised(t1, t0, v, 0xffffffffffffc000000000000, 0x3ffffffffffff, 0xfffffffffffffffffffffffff);
    t2 := SquareTimes(t1, 100, v, 0xfffffffffffffffffffffffff, 0xfffffffffffffffffffffffff0000000000000000000000000);
    t1 := MulRaised(t2, t1, v, 0xfffffffffffffffffffffffff0000000000000000000000000, 0xfffffffffffffffffffffffff,
        0xffffffffffffffffffffffffffffffffffffffffffffffffff);
    t1 := SquareTimes(t1, 50, v, 0xffffffffffffffffffffffffffffffffffffffffffffffffff,
        0x3fffffffffffffffffffffffffffffffffffffffffffffffffc000000000000);
    t0 := MulRaised(t1, t0, v, 0x3fffffffffffffffffffffffffffffffffffffffffffffffffc000000000000, 0x3ffffffffffff,
        0x3ffffffffffffffffffffffffffffffffffffffffffffffffffffffffffffff);
    t0 := SquareTimes(t0, 2, v, 0x3ffffffffffffffffffffffffffffffffffffffffffffffffffffffffffffff,
        0xffffffffffffffffffffffffffffffffffffffffffffffffffffffffffffffc);
    out := MulRaised(t0, z, v, 0xffffffffffffffffffffffffffffffffffffffffffffffffffffffffffffffc, 0x1,
        0xffffffffffffffffffffffffffffffffffffffffffffffffffffffffffffffd);
    RaisedIs(out, v, (P - 5) / 8);
  }
}
