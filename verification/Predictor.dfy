/** The adaptive predictor of alac/dp_dec.c as a function from residuals to samples, and the proof
    that it loses nothing. 32-bit and 16-bit arithmetic wraps around. */
module Predictor {
  import opened Arith

  function Signed(r: int, m: int): int { if 2 * r >= m then r - m else r }

  /** x as a signed 32-bit integer. Lemma Wrap32Open opens the definition. */
  function Wrap32(x: int, fold: nat := 3): (w: int)
    ensures -0x8000_0000 <= w < 0x8000_0000
  {
    if fold > 0 then Wrap32(x, fold - 1) else Signed(x % 0x1_0000_0000, 0x1_0000_0000)
  }

  lemma {:induction false} Wrap32Open(x: int, fold: nat := 3)
    ensures Wrap32(x, fold) == Signed(x % 0x1_0000_0000, 0x1_0000_0000)
  {
    if fold > 0 {
      Wrap32Open(x, fold - 1);
    }
  }

  /** x as a signed 16-bit integer. */
  function Wrap16(x: int, fold: nat := 3): int {
    if fold > 0 then Wrap16(x, fold - 1) else Signed(x % 0x1_0000, 0x1_0000)
  }

  function Sign(x: int): int { if x > 0 then 1 else if x < 0 then -1 else 0 }

  /** The low c bits of x as a signed number. Lemma SignExtendOpen opens the definition. */
  function SignExtend(x: int, c: nat, fold: nat := 3): int {
    if fold > 0 then SignExtend(x, c, fold - 1) else Signed(x % Pow2(c), Pow2(c))
  }

  lemma {:induction false} SignExtendOpen(x: int, c: nat, fold: nat := 3)
    ensures SignExtend(x, c, fold) == Signed(x % Pow2(c), Pow2(c))
  {
    if fold > 0 {
      SignExtendOpen(x, c, fold - 1);
    }
  }

  predicate InRange(x: int, c: nat) { 0 <= 2 * x + Pow2(c) && 2 * x < Pow2(c) }

  /** A signed number of c bits is the only one in range with its residue. */
  lemma SignExtendUnique(x: int, y: int, c: nat, k: int)
    requires c >= 1 && InRange(y, c) && x == y + Pow2(c) * k
    ensures SignExtend(x, c) == y
  {
    var m := Pow2(c);
    SignExtendOpen(x, c);
    if y >= 0 {
      QuotientUnique(x, m, k, y);
    } else {
      MulDist(m, k, -1);
      QuotientUnique(x, m, k - 1, y + m);
    }
  }

  lemma SignExtendIs(x: int, c: nat) returns (k: int)
    requires c >= 1
    ensures x == SignExtend(x, c) + Pow2(c) * k && InRange(SignExtend(x, c), c)
  {
    var m := Pow2(c);
    SignExtendOpen(x, c);
    k := x / m;
    assert x == m * k + x % m;
    if 2 * (x % m) >= m {
      MulDist(m, k, 1);
      k := k + 1;
    }
  }

  /** Adding a prediction and wrapping is undone by subtracting it and wrapping. */
  lemma WrapUndo(r: int, p: int, c: nat)
    requires c >= 1 && InRange(r, c)
    ensures SignExtend(SignExtend(r + p, c) - p, c) == r
    ensures SignExtend(SignExtend(r - p, c) + p, c) == r
  {
    var k := SignExtendIs(r + p, c);
    SignExtendUnique(SignExtend(r + p, c) - p, r, c, -k);
    k := SignExtendIs(r - p, c);
    SignExtendUnique(SignExtend(r - p, c) + p, r, c, -k);
  }

  /** Shifting left and back right by 32 - c keeps the low c bits, signed. */
  lemma ShiftPair(x: int, c: nat)
    requires 1 <= c <= 32
    ensures Wrap32(x * Pow2(32 - c)) / Pow2(32 - c) == SignExtend(x, c)
  {
    var s, m := Pow2(32 - c), Pow2(c);
    Pow2Add(32 - c, c);
    Pow32();
    SignExtendOpen(x, c);
    ShiftBack(x, s, m);
  }

  lemma ShiftBack(x: int, s: int, m: int)
    requires s * m == 0x1_0000_0000 && s > 0 && m > 0
    ensures Wrap32(x * s) / s == Signed(x % m, m)
  {
    var q, r := x / m, x % m;
    Wrap32Open(x * s);
    ShiftArith(x, s, m, q, r);
    QuotientUnique(x * s, 0x1_0000_0000, q, r * s);
    HalfArith(r, s, m);
    assert (r - m) * s == s * (r - m) && r * s == s * r;
    if 2 * r >= m {
      assert Wrap32(x * s) == (r - m) * s;
      QuotientUnique((r - m) * s, s, r - m, 0);
    } else {
      assert Wrap32(x * s) == r * s;
      QuotientUnique(r * s, s, r, 0);
    }
  }

  lemma Pow32()
    ensures Pow2(32) == 0x1_0000_0000
  {
    assert Pow2(4) == 16;
    Pow2Add(4, 4);
    Pow2Add(8, 8);
    Pow2Add(16, 16);
  }

  lemma ShiftArith(x: int, s: int, m: int, q: int, r: int)
    requires x == m * q + r && s * m == 0x1_0000_0000 && 0 <= r < m && s > 0
    ensures x * s == 0x1_0000_0000 * q + r * s && 0 <= r * s < 0x1_0000_0000
  {
    MulAssoc(s, m, q);
    MulDist(s, m * q, r);
    MulStrict(r, m, s);
    MulMonotone(0, r, s);
  }

  lemma HalfArith(r: int, s: int, m: int)
    requires s * m == 0x1_0000_0000 && s > 0
    ensures 2 * r >= m ==> r * s >= 0x8000_0000
    ensures 2 * r < m ==> r * s < 0x8000_0000
    ensures (r - m) * s == r * s - 0x1_0000_0000
  {
    if 2 * r >= m {
      MulMonotone(m, 2 * r, s);
    } else {
      MulStrict(2 * r, m, s);
    }
    MulAssoc(2, r, s);
    MulDist(s, r, -m);
  }

  /** What stays fixed over a block: the number of taps, the sample width, the coefficient scale. */
  datatype Params = Params(taps: nat, chanbits: nat, denshift: nat) {
    predicate Valid() { taps <= 31 && 1 <= chanbits <= 32 && denshift >= 1 }
  }

  /** What a block has produced so far: the samples and the coefficients as they have adapted. */
  datatype Block = Block(out: seq<int>, coefs: seq<int>)

  /** The predictor is in its adaptive phase: past the warm-up samples. */
  predicate Adaptive(p: Params, j: nat) { p.taps != 0 && p.taps != 31 && j > p.taps }

  /** The differences between the oldest sample in the window and the later ones, newest first. */
  function Differences(out: seq<int>, taps: nat): (b: seq<int>)
    requires |out| > taps
    ensures |b| == taps
  {
    seq(taps, k requires 0 <= k < taps => Wrap32(out[|out| - 1 - taps] - out[|out| - 1 - k]))
  }

  /** The first n products of coefficients and sample offsets, added up. */
  function Dot(coefs: seq<int>, out: seq<int>, n: nat): int
    requires n <= |coefs| && |out| > |coefs|
  {
    if n == 0 then 0
    else Dot(coefs, out, n - 1) + coefs[n - 1] * (out[|out| - n] - out[|out| - 1 - |coefs|])
  }

  /** The sample expected next. */
  function Prediction(b: Block, p: Params): int
    requires p.Valid() && |b.coefs| == p.taps
  {
    var j := |b.out|;
    if Adaptive(p, j) then
      b.out[j - 1 - p.taps] + Wrap32(Dot(b.coefs, b.out, p.taps) + Pow2(p.denshift - 1)) / Pow2(p.denshift)
    else if j == 0 || p.taps == 0 then 0
    else b.out[j - 1]
  }

  /** del - weight * ((s * b) >> denshift) in 32-bit arithmetic: what is left of the residual. */
  function Left(del: int, weight: int, s: int, b: int, d: int, fold: nat := 3): int
    requires d > 0
  {
    if fold > 0 then Left(del, weight, s, b, d, fold - 1) else Wrap32(del - weight * (Wrap32(s * b) / d))
  }

  /** Coefficients k - 1 down to 0 move against the sign of their differences until the part of the
      residual del they account for is used up. */
  function Adapt(coefs: seq<int>, b: seq<int>, del: int, k: nat, up: bool, d: int, fold: nat := 3): (r: seq<int>)
    requires k <= |coefs| == |b| && d > 0
    ensures |r| == |coefs|
    decreases k, fold
  {
    if fold > 0 then Adapt(coefs, b, del, k, up, d, fold - 1)
    else if k == 0 then coefs else
      var i := k - 1;
      var s := if up then Sign(b[i]) else -Sign(b[i]);
      var moved := coefs[i := Wrap16(coefs[i] - s)];
      var rest := Left(del, |coefs| - i, s, b[i], d);
      if (if up then rest <= 0 else rest >= 0) then moved else Adapt(moved, b, rest, i, up, d)
  }

  /** One turn of the adaptation. */
  lemma {:induction false} AdaptTurn(c: seq<int>, b: seq<int>, del: int, k: nat, up: bool, d: int, fold: nat := 3)
    requires 0 < k <= |c| == |b| && d > 0
    ensures var i := k - 1;
      var s := if up then Sign(b[i]) else -Sign(b[i]);
      var moved := c[i := Wrap16(c[i] - s)];
      var rest := Left(del, |c| - i, s, b[i], d);
      Adapt(c, b, del, k, up, d, fold) ==
        if (if up then rest <= 0 else rest >= 0) then moved else Adapt(moved, b, rest, i, up, d)
  {
    if fold > 0 {
      AdaptTurn(c, b, del, k, up, d, fold - 1);
    }
  }

  lemma {:induction false} AdaptDone(c: seq<int>, b: seq<int>, del: int, up: bool, d: int, k: nat, fold: nat := 3)
    requires |c| == |b| && d > 0 && k == 0
    ensures Adapt(c, b, del, k, up, d, fold) == c
  {
    if fold > 0 {
      AdaptDone(c, b, del, up, d, k, fold - 1);
    }
  }

  /** The coefficients after residual r. */
  function Adapted(b: Block, r: int, p: Params): (coefs: seq<int>)
    requires p.Valid() && |b.coefs| == p.taps
    ensures |coefs| == p.taps
  {
    if Adaptive(p, |b.out|) && r != 0 then
      Adapt(b.coefs, Differences(b.out, p.taps), r, p.taps, r > 0, Pow2(p.denshift))
    else b.coefs
  }

  /** The first sample, and every sample when there are no taps, is the residual itself. */
  function Sample(b: Block, r: int, p: Params): int
    requires p.Valid() && |b.coefs| == p.taps
  {
    if |b.out| == 0 || p.taps == 0 then r else SignExtend(r + Prediction(b, p), p.chanbits)
  }

  function Residual(b: Block, x: int, p: Params): int
    requires p.Valid() && |b.coefs| == p.taps
  {
    if |b.out| == 0 || p.taps == 0 then x else SignExtend(x - Prediction(b, p), p.chanbits)
  }

  function Next(b: Block, r: int, p: Params): (c: Block)
    requires p.Valid() && |b.coefs| == p.taps
    ensures |c.coefs| == p.taps && |c.out| == |b.out| + 1
  {
    Block(b.out + [Sample(b, r, p)], Adapted(b, r, p))
  }

  /** The block after the first n residuals. */
  function Decode(pc: seq<int>, coefs: seq<int>, p: Params, n: nat): (b: Block)
    requires p.Valid() && |coefs| == p.taps && n <= |pc|
    ensures |b.out| == n && |b.coefs| == p.taps
  {
    if n == 0 then Block([], coefs) else Next(Decode(pc, coefs, p, n - 1), pc[n - 1], p)
  }

  /** What an encoder that runs the same predictor sends for the first n samples. */
  function Encode(x: seq<int>, coefs: seq<int>, p: Params, n: nat): (e: (seq<int>, Block))
    requires p.Valid() && |coefs| == p.taps && n <= |x|
    ensures |e.0| == n && |e.1.out| == n && |e.1.coefs| == p.taps
  {
    if n == 0 then ([], Block([], coefs)) else
      var (r, b) := Encode(x, coefs, p, n - 1);
      var e := Residual(b, x[n - 1], p);
      (r + [e], Next(b, e, p))
  }

  predicate AllInRange(s: seq<int>, c: nat) { forall i :: 0 <= i < |s| ==> InRange(s[i], c) }

  lemma WrapInverse(v: int, q: int, c: nat)
    requires c >= 1 && InRange(v, c)
    ensures SignExtend(SignExtend(v + q, c) - q, c) == v && SignExtend(SignExtend(v - q, c) + q, c) == v
    ensures InRange(SignExtend(v + q, c), c) && InRange(SignExtend(v - q, c), c)
  {
    WrapUndo(v, q, c);
    var _ := SignExtendIs(v + q, c);
    var _ := SignExtendIs(v - q, c);
  }

  lemma StepInverse(b: Block, v: int, p: Params)
    requires p.Valid() && |b.coefs| == p.taps && InRange(v, p.chanbits)
    ensures Sample(b, Residual(b, v, p), p) == v && Residual(b, Sample(b, v, p), p) == v
    ensures InRange(Sample(b, v, p), p.chanbits) && InRange(Residual(b, v, p), p.chanbits)
  {
    if |b.out| != 0 && p.taps != 0 {
      WrapInverse(v, Prediction(b, p), p.chanbits);
    }
  }

  lemma {:induction false} DecodePrefix(a: seq<int>, b: seq<int>, coefs: seq<int>, p: Params, n: nat)
    requires p.Valid() && |coefs| == p.taps && n <= |a| && n <= |b| && a[..n] == b[..n]
    ensures Decode(a, coefs, p, n) == Decode(b, coefs, p, n)
  {
    if n > 0 {
      assert a[..n - 1] == a[..n][..n - 1] && b[..n - 1] == b[..n][..n - 1];
      DecodePrefix(a, b, coefs, p, n - 1);
      assert a[n - 1] == a[..n][n - 1] && b[n - 1] == b[..n][n - 1];
    }
  }

  lemma DecodedResidual(x: seq<int>, coefs: seq<int>, p: Params, n: nat, r: seq<int>, b: Block)
    requires p.Valid() && |coefs| == p.taps && 0 < n <= |x| && AllInRange(x, p.chanbits)
    requires (r, b) == Encode(x, coefs, p, n - 1) && Decode(r, coefs, p, n - 1) == b && b.out == x[..n - 1]
    requires AllInRange(r, p.chanbits)
    ensures var e := Encode(x, coefs, p, n);
      Decode(e.0, coefs, p, n) == e.1 && e.1.out == x[..n] && AllInRange(e.0, p.chanbits)
  {
    var v := Residual(b, x[n - 1], p);
    var s := r + [v];
    assert Encode(x, coefs, p, n) == (s, Next(b, v, p));
    assert s[..n - 1] == r[..n - 1];
    DecodePrefix(s, r, coefs, p, n - 1);
    StepInverse(b, x[n - 1], p);
    assert x[..n] == x[..n - 1] + [x[n - 1]];
  }

  /** Decoding what was encoded gives the samples back, and leaves the same coefficients. */
  lemma {:induction false} DecodeEncode(x: seq<int>, coefs: seq<int>, p: Params, n: nat)
    requires p.Valid() && |coefs| == p.taps && n <= |x| && AllInRange(x, p.chanbits)
    ensures var e := Encode(x, coefs, p, n);
      Decode(e.0, coefs, p, n) == e.1 && e.1.out == x[..n] && AllInRange(e.0, p.chanbits)
  {
    if n > 0 {
      DecodeEncode(x, coefs, p, n - 1);
      var (r, b) := Encode(x, coefs, p, n - 1);
      DecodedResidual(x, coefs, p, n, r, b);
    }
  }

  lemma {:induction false} EncodePrefix(a: seq<int>, b: seq<int>, coefs: seq<int>, p: Params, n: nat)
    requires p.Valid() && |coefs| == p.taps && n <= |a| && n <= |b| && a[..n] == b[..n]
    ensures Encode(a, coefs, p, n) == Encode(b, coefs, p, n)
  {
    if n > 0 {
      assert a[..n - 1] == a[..n][..n - 1] && b[..n - 1] == b[..n][..n - 1];
      EncodePrefix(a, b, coefs, p, n - 1);
      assert a[n - 1] == a[..n][n - 1] && b[n - 1] == b[..n][n - 1];
    }
  }

  lemma EncodedSample(pc: seq<int>, coefs: seq<int>, p: Params, n: nat, b: Block)
    requires p.Valid() && |coefs| == p.taps && 0 < n <= |pc| && AllInRange(pc, p.chanbits)
    requires b == Decode(pc, coefs, p, n - 1) && Encode(b.out, coefs, p, n - 1) == (pc[..n - 1], b)
    requires AllInRange(b.out, p.chanbits)
    ensures var c := Decode(pc, coefs, p, n);
      Encode(c.out, coefs, p, n) == (pc[..n], c) && AllInRange(c.out, p.chanbits)
  {
    var c := Next(b, pc[n - 1], p);
    assert c == Decode(pc, coefs, p, n);
    assert c.out[..n - 1] == b.out[..n - 1];
    EncodePrefix(c.out, b.out, coefs, p, n - 1);
    StepInverse(b, pc[n - 1], p);
    assert pc[..n] == pc[..n - 1] + [pc[n - 1]];
  }

  /** Encoding what was decoded gives the residuals back: for fixed parameters the predictor is a
      bijection between residuals and samples of the channel's width. */
  lemma {:induction false} EncodeDecode(pc: seq<int>, coefs: seq<int>, p: Params, n: nat)
    requires p.Valid() && |coefs| == p.taps && n <= |pc| && AllInRange(pc, p.chanbits)
    ensures var b := Decode(pc, coefs, p, n);
      Encode(b.out, coefs, p, n) == (pc[..n], b) && AllInRange(b.out, p.chanbits)
  {
    if n > 0 {
      EncodeDecode(pc, coefs, p, n - 1);
      EncodedSample(pc, coefs, p, n, Decode(pc, coefs, p, n - 1));
    }
  }
}
