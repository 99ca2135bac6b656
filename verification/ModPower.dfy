/** bi_mod_power: left-to-right square and multiply over Barrett reduction, the
    form that is live when the sliding window is compiled out (crypto/bigint.c). */
module ModPower {
  import opened Arith
  import opened Digits
  import opened Bigint
  import opened Squaring
  import opened Multiplication
  import opened LongDivision
  import opened Barrett

  /** b to the power e. */
  function Exp(b: int, e: nat): int {
    if e == 0 then 1 else b * Exp(b, e - 1)
  }

  /** exp_bit_is_one: bit i of an exponent. */
  predicate ExpBit(s: seq<Comp>, i: nat)
    requires i < 32 * |s|
  {
    (s[i / 32] / Pow2(i % 32)) % 2 == 1
  }

  /** The exponent shifted right by i bits, read off bit by bit. */
  function TopBits(s: seq<Comp>, i: nat): nat
    requires i <= 32 * |s|
    decreases 32 * |s| - i
  {
    if i == 32 * |s| then 0 else 2 * TopBits(s, i + 1) + if ExpBit(s, i) then 1 else 0
  }

  lemma {:induction false} ExpAdd(b: int, d: nat, e: nat)
    ensures Exp(b, d + e) == Exp(b, d) * Exp(b, e)
  {
    if d > 0 {
      ExpAdd(b, d - 1, e);
      MulAssoc(b, Exp(b, d - 1), Exp(b, e));
    }
  }

  lemma Pow2ToB()
    ensures Pow2(32) == B
  {
    assert Pow2(8) == 256;
    assert Pow2(16) == 0x1_0000;
    assert Pow2(24) == 0x100_0000;
  }

  /** Within word w, the top bits are the words above and the shifted word itself. */
  lemma {:induction false} TopBitsInWord(s: seq<Comp>, w: nat, j: nat)
    requires w < |s| && j <= 32
    requires TopBits(s, 32 * w + 32) == Val(s[w + 1..])
    ensures TopBits(s, 32 * w + j) == Val(s[w + 1..]) * Pow2(32 - j) + s[w] / Pow2(j)
    decreases 32 - j
  {
    var v, x := Val(s[w + 1..]), s[w];
    if j == 32 {
      assert x / Pow2(32) == 0 by { Pow2ToB(); }
      assert v * Pow2(0) == v;
    } else {
      TopBitsInWord(s, w, j + 1);
      WordPosition(w, j);
      var bit := if ExpBit(s, 32 * w + j) then 1 else 0;
      assert TopBits(s, 32 * w + j) == 2 * TopBits(s, 32 * w + j + 1) + bit;
      assert x / Pow2(j) == 2 * (x / Pow2(j + 1)) + bit by { HalveWord(x, Pow2(j)); }
      assert Pow2(32 - j) == 2 * Pow2(31 - j);
      DoubleArith(v, Pow2(31 - j));
    }
  }

  lemma WordPosition(w: nat, j: nat)
    requires j < 32
    ensures (32 * w + j) / 32 == w && (32 * w + j) % 32 == j
  {
  }

  lemma DoubleArith(v: int, p: int)
    ensures v * (2 * p) == 2 * (v * p)
  {
  }

  /** Bit by bit, the exponent is read exactly. */
  lemma {:induction false} TopBitsOfWords(s: seq<Comp>, w: nat)
    requires w <= |s|
    ensures TopBits(s, 32 * w) == Val(s[w..])
    decreases |s| - w
  {
    if w == |s| {
      assert s[w..] == [];
    } else {
      TopBitsOfWords(s, w + 1);
      TopBitsInWord(s, w, 0);
      Pow2ToB();
      ValTail(s, w);
      assert s[w] / Pow2(0) == s[w];
    }
  }

  lemma TopBitsAll(s: seq<Comp>)
    ensures TopBits(s, 0) == Val(s)
  {
    TopBitsOfWords(s, 0);
    assert s[0..] == s;
  }

  /** find_max_exp_index: the highest set bit, or -1 for exponent zero. */
  method FindMaxExpIndex(biexp: Bigint) returns (i: int)
    requires Trimmed(biexp.comps)
    ensures -1 <= i < 32 * |biexp.comps|
    ensures i == -1 ==> biexp.Value() == 0
    ensures i >= 0 ==> ExpBit(biexp.comps, i) && TopBits(biexp.comps, i + 1) == 0
  {
    var s := biexp.comps;
    var n := |s|;
    i := 32 * n - 1;
    while i >= 32 * (n - 1)
      invariant 32 * (n - 1) - 1 <= i < 32 * n
      invariant TopBits(s, i + 1) == 0
    {
      if ExpBit(s, i) {
        return;
      }
      i := i - 1;
    }
    TopBitsOfWords(s, n - 1);
    ValTail(s, n - 1);
    assert n == 1;
    assert s[0..] == s;
    i := -1;
  }

  /** exp_bit_is_one. C's division truncates, so offset -1 reads bit 0. */
  method ExpBitIsOne(biexp: Bigint, offset: int) returns (one: bool)
    requires |biexp.comps| >= 1 && -1 <= offset < 32 * |biexp.comps|
    ensures one == ExpBit(biexp.comps, if offset < 0 then 0 else offset)
  {
    var test, numShifts := biexp.comps[0], 0;
    if offset >= 0 {
      test, numShifts := biexp.comps[offset / 32], offset % 32;
    }
    var shift: nat, i := 1, 0;
    while i < numShifts
      invariant 0 <= i <= numShifts && shift == Pow2(i)
    {
      shift, i := 2 * shift, i + 1;
    }
    one := (test / shift) % 2 == 1;
  }

  /** A number congruent to a power, and the multiple of m that it lacks: r + k * m is the power. Lemma
      ResidueIs opens the definition. */
  ghost predicate Residue(r: int, k: int, m: int, power: int, fold: nat := 3) {
    if fold > 0 then Residue(r, k, m, power, fold - 1) else r + k * m == power
  }

  lemma {:induction false} ResidueIs(r: int, k: int, m: int, power: int, fold: nat := 3)
    ensures Residue(r, k, m, power, fold) <==> r + k * m == power
  {
    if fold > 0 {
      ResidueIs(r, k, m, power, fold - 1);
    }
  }

  /** Squaring and reducing doubles the exponent. */
  lemma SquareStep(r: int, k: int, m: int, b: int, e: nat, r': int, q: int) returns (k': int)
    requires Residue(r, k, m, Exp(b, e)) && r * r == r' + q * m
    ensures Residue(r', k', m, Exp(b, 2 * e))
  {
    k' := q + 2 * (r * k) + k * k * m;
    ResidueIs(r, k, m, Exp(b, e));
    ResidueIs(r', k', m, Exp(b, 2 * e));
    ExpAdd(b, e, e);
    SquareOfSum(r, k, m);
    assert k' * m == q * m + 2 * (r * k) * m + (k * k * m) * m;
  }

  lemma SquareOfSum(r: int, k: int, m: int)
    ensures (r + k * m) * (r + k * m) == r * r + 2 * (r * k) * m + (k * k * m) * m
  {
  }

  /** Multiplying by the base and reducing adds one to it. */
  lemma MultiplyStep(r: int, k: int, m: int, b: int, e: nat, r': int, q: int) returns (k': int)
    requires Residue(r, k, m, Exp(b, e)) && r * b == r' + q * m
    ensures Residue(r', k', m, Exp(b, e + 1))
  {
    k' := q + k * b;
    ResidueIs(r, k, m, Exp(b, e));
    ResidueIs(r', k', m, Exp(b, e + 1));
    assert (r + k * m) * b == r * b + (k * b) * m;
    assert k' * m == q * m + (k * b) * m;
    assert Exp(b, e + 1) == b * Exp(b, e);
  }

  /** bi_residue(bi_square(biR)) */
  method SquareAndReduce(ctx: Context, biR: Bigint, ghost b: int, ghost e: nat, ghost k: int)
    returns (r: Bigint, ghost k': int)
    requires ctx.Ready() && Trimmed(biR.comps)
    requires Residue(biR.Value(), k, ctx.mod.Value(), Exp(b, e))
    modifies ctx.mod, ctx.normalisedMod
    ensures ctx.Ready() && ctx.mod.comps == old(ctx.mod.comps)
    ensures fresh(r) && Trimmed(r.comps) && r.Value() < 3 * ctx.mod.Value()
    ensures Residue(r.Value(), k', ctx.mod.Value(), Exp(b, 2 * e))
  {
    ghost var v := biR.Value();
    var squared := RegularSquare(biR);
    ghost var q: int;
    r, q := BarrettReduce(ctx, squared);
    k' := SquareStep(v, k, ctx.mod.Value(), b, e, r.Value(), q);
  }

  /** bi_residue(bi_multiply(biR, g[0])) */
  method MultiplyAndReduce(ctx: Context, biR: Bigint, g: Bigint, ghost e: nat, ghost k: int)
    returns (r: Bigint, ghost k': int)
    requires ctx.Ready() && Trimmed(biR.comps) && Trimmed(g.comps)
    requires g != ctx.mod && g != ctx.normalisedMod
    requires Residue(biR.Value(), k, ctx.mod.Value(), Exp(g.Value(), e))
    modifies ctx.mod, ctx.normalisedMod
    ensures ctx.Ready() && ctx.mod.comps == old(ctx.mod.comps)
    ensures fresh(r) && Trimmed(r.comps) && r.Value() < 3 * ctx.mod.Value()
    ensures Residue(r.Value(), k', ctx.mod.Value(), Exp(g.Value(), e + 1))
  {
    ghost var v, b := biR.Value(), g.Value();
    var product, high := RegularMultiply(biR, g, 0, 0);
    NothingSkipped(biR.comps, g.comps, |g.comps|);
    ghost var q: int;
    r, q := BarrettReduce(ctx, product);
    k' := MultiplyStep(v, k, ctx.mod.Value(), b, e, r.Value(), q);
  }

  lemma {:induction false} NothingSkipped(a: seq<Comp>, b: seq<Comp>, i: nat)
    requires i <= |b|
    ensures Skipped(a, b, 0, i) == 0
  {
    if i > 0 {
      NothingSkipped(a, b, i - 1);
    }
  }

  /** The exponent bits above i have been used; offset -1 stands for exponent zero. */
  ghost predicate Progress(r: int, k: int, m: int, b: int, s: seq<Comp>, i: int) {
    && |s| >= 1 && -1 <= i < 32 * |s|
    && Residue(r, k, m, Exp(b, TopBits(s, i + 1)))
    && (i == -1 ==> !ExpBit(s, 0) && TopBits(s, 0) == 0)
  }

  /** The exponent with the next bit taken in. */
  lemma BitTaken(s: seq<Comp>, i: int)
    requires |s| >= 1 && -1 <= i < 32 * |s| && (i == -1 ==> !ExpBit(s, 0) && TopBits(s, 0) == 0)
    ensures var j := if i < 0 then 0 else i;
      TopBits(s, j) == 2 * TopBits(s, i + 1) + if ExpBit(s, j) then 1 else 0
  {
  }

  /** One turn of the loop: square, and multiply if bit i is set. */
  method PowerStep(ctx: Context, biR: Bigint, g: Bigint, biexp: Bigint, i: int, ghost k: int)
    returns (r: Bigint, ghost k': int)
    requires ctx.Ready() && Trimmed(biR.comps) && Trimmed(g.comps) && |biexp.comps| >= 1
    requires g != ctx.mod && g != ctx.normalisedMod
    requires Progress(biR.Value(), k, ctx.mod.Value(), g.Value(), biexp.comps, i)
    modifies ctx.mod, ctx.normalisedMod
    ensures ctx.Ready() && ctx.mod.comps == old(ctx.mod.comps)
    ensures fresh(r) && Trimmed(r.comps) && r.Value() < 3 * ctx.mod.Value()
    ensures Residue(r.Value(), k', ctx.mod.Value(), Exp(g.Value(), TopBits(old(biexp.comps), if i < 0 then 0 else i)))
  {
    ghost var s, e := biexp.comps, TopBits(biexp.comps, i + 1);
    BitTaken(s, i);
    var one := ExpBitIsOne(biexp, i);
    r, k' := SquareAndReduce(ctx, biR, g.Value(), e, k);
    if one {
      r, k' := MultiplyAndReduce(ctx, r, g, 2 * e, k');
    }
  }

  /** The state before the first turn. */
  lemma PowerStart(s: seq<Comp>, i: int, m: int, b: int)
    requires |s| >= 1 && -1 <= i < 32 * |s|
    requires i == -1 ==> Val(s) == 0
    requires i >= 0 ==> TopBits(s, i + 1) == 0
    ensures Progress(1, 0, m, b, s, i)
  {
    TopBitsAll(s);
    ResidueIs(1, 0, m, Exp(b, TopBits(s, i + 1)));
  }

  /** bi_mod_power: the result is congruent to base^exponent modulo m, for every base
      and every exponent, zero included. */
  method ModPower(ctx: Context, bi: Bigint, biexp: Bigint) returns (biR: Bigint, ghost k: int)
    requires ctx.Ready() && Trimmed(bi.comps) && Trimmed(biexp.comps)
    requires biexp != ctx.mod && biexp != ctx.normalisedMod
    modifies ctx.mod, ctx.normalisedMod
    ensures ctx.Ready() && ctx.mod.comps == old(ctx.mod.comps)
    ensures Trimmed(biR.comps) && biR.Value() < 3 * ctx.mod.Value()
    ensures Residue(biR.Value(), k, ctx.mod.Value(), Exp(old(bi.Value()), old(biexp.Value())))
  {
    var i := FindMaxExpIndex(biexp);
    var g := Clone(bi);
    biR := new Bigint([1]);
    ValSingle(1);
    PowerStart(biexp.comps, i, ctx.mod.Value(), g.Value());
    TopBitsAll(biexp.comps);
    biR, k := PowerTurns(ctx, biR, g, biexp, i);
  }

  /** The turns of the loop: one on bit i, whatever i is, and those below. */
  method PowerTurns(ctx: Context, one: Bigint, g: Bigint, biexp: Bigint, i: int) returns (biR: Bigint, ghost k: int)
    requires ctx.Ready() && Trimmed(one.comps) && Trimmed(g.comps)
    requires one != ctx.mod && one != ctx.normalisedMod && g != ctx.mod && g != ctx.normalisedMod
    requires biexp != ctx.mod && biexp != ctx.normalisedMod
    requires Progress(one.Value(), 0, ctx.mod.Value(), g.Value(), biexp.comps, i)
    modifies ctx.mod, ctx.normalisedMod
    ensures ctx.Ready() && ctx.mod.comps == old(ctx.mod.comps)
    ensures Trimmed(biR.comps) && biR.Value() < 3 * ctx.mod.Value()
    ensures Residue(biR.Value(), k, ctx.mod.Value(), Exp(g.Value(), TopBits(biexp.comps, 0)))
  {
    biR, k := PowerStep(ctx, one, g, biexp, i, 0);
    if i >= 1 {
      biR, k := PowerLoop(ctx, biR, g, biexp, i - 1, k);
    }
  }

  /** The remaining turns of the loop, from bit `top` down. */
  method PowerLoop(ctx: Context, start: Bigint, g: Bigint, biexp: Bigint, top: nat, ghost k0: int)
    returns (biR: Bigint, ghost k: int)
    requires ctx.Ready() && Trimmed(start.comps) && start.Value() < 3 * ctx.mod.Value()
    requires start != ctx.mod && start != ctx.normalisedMod && Trimmed(g.comps) && top < 32 * |biexp.comps|
    requires g != ctx.mod && g != ctx.normalisedMod && biexp != ctx.mod && biexp != ctx.normalisedMod
    requires Residue(start.Value(), k0, ctx.mod.Value(), Exp(g.Value(), TopBits(biexp.comps, top + 1)))
    modifies ctx.mod, ctx.normalisedMod
    ensures ctx.Ready() && ctx.mod.comps == old(ctx.mod.comps)
    ensures Trimmed(biR.comps) && biR.Value() < 3 * ctx.mod.Value()
    ensures Residue(biR.Value(), k, ctx.mod.Value(), Exp(g.Value(), TopBits(biexp.comps, 0)))
  {
    biR, k := start, k0;
    var i: int := top;
    while i >= 0
      invariant -1 <= i <= top
      invariant ctx.Ready() && ctx.mod.comps == old(ctx.mod.comps)
      invariant Trimmed(biR.comps) && biR.Value() < 3 * ctx.mod.Value()
      invariant Residue(biR.Value(), k, ctx.mod.Value(), Exp(g.Value(), TopBits(biexp.comps, i + 1)))
    {
      biR, k := PowerStep(ctx, biR, g, biexp, i, k);
      i := i - 1;
    }
  }
}
