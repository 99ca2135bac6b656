/** unmix16 of alac/matrix_dec.c, which undoes the generalized middle-side mix of a stereo pair. */
module Stereo {
  import opened Arith
  import opened Predictor

  /** The mix the file's comment describes: a weighted mean of the channels, and their difference. */
  function Mix(l: int, r: int, bits: nat, res: int): (int, int) {
    ((res * l + (Pow2(bits) - res) * r) / Pow2(bits), l - r)
  }

  /** Its inverse, without wrapping. */
  function Unmix(u: int, v: int, bits: nat, res: int): (int, int) {
    var l := u + v - (res * v) / Pow2(bits);
    (l, l - v)
  }

  lemma Weighted(l: int, r: int, m: int, res: int)
    requires m > 0
    ensures (res * l + (m - res) * r) / m == r + (res * (l - r)) / m
  {
    var q, s := (res * (l - r)) / m, (res * (l - r)) % m;
    assert res * (l - r) == m * q + s;
    MulDist(res, l, -r);
    MulDist(r, m, -res);
    assert res * l + (m - res) * r == m * (r + q) + s by { MulDist(m, r, q); }
    QuotientUnique(res * l + (m - res) * r, m, r + q, s);
  }

  /** Mixing and unmixing are inverse to each other, whatever the weight. */
  lemma UnmixMix(l: int, r: int, bits: nat, res: int)
    ensures var m := Mix(l, r, bits, res); Unmix(m.0, m.1, bits, res) == (l, r)
  {
    Weighted(l, r, Pow2(bits), res);
  }

  lemma MixUnmix(u: int, v: int, bits: nat, res: int)
    ensures var p := Unmix(u, v, bits, res); Mix(p.0, p.1, bits, res) == (u, v)
  {
    var (l, r) := Unmix(u, v, bits, res);
    Weighted(l, r, Pow2(bits), res);
  }

  /** The pair as the code computes it, wrapping at 32 bits and stored in 16. */
  function Stored(u: int, v: int, bits: nat, res: int): (int, int) {
    if res == 0 then (Wrap16(u), Wrap16(v)) else
      var l := Wrap32(Wrap32(u + v) - Wrap32(res * v) / Pow2(bits));
      (Wrap16(l), Wrap16(Wrap32(l - v)))
  }

  predicate Is16(x: int) { -0x8000 <= x < 0x8000 }

  lemma Small(x: int)
    ensures -0x8000_0000 <= x < 0x8000_0000 ==> Wrap32(x) == x
    ensures Is16(x) ==> Wrap16(x) == x
  {
    Wrap32Open(x);
    Wrap16Open(x);
  }

  lemma {:induction false} Wrap16Open(x: int, fold: nat := 3)
    ensures Wrap16(x, fold) == Signed(x % 0x1_0000, 0x1_0000)
  {
    if fold > 0 {
      Wrap16Open(x, fold - 1);
    }
  }

  lemma ProductSmall(res: int, v: int)
    requires -128 <= res < 128 && -0x1_0000 <= v <= 0x1_0000
    ensures -0x80_0000 <= res * v <= 0x80_0000
  {
    if v >= 0 {
      MulMonotone(-128, res, v);
      MulMonotone(res, 128, v);
    } else {
      MulMonotone(-128, res, -v);
      MulMonotone(res, 128, -v);
      assert res * -v == -(res * v);
    }
  }

  lemma QuotientSmall(x: int, p: int)
    requires p >= 1 && -0x80_0000 <= x <= 0x80_0000
    ensures -0x80_0000 <= x / p <= 0x80_0000
  {
    var q := x / p;
    assert x == p * q + x % p;
    if q > 0x80_0000 {
      MulMonotone(1, p, q);
    } else if q < -0x80_0000 {
      MulMonotone(1, p, -q - 1);
      MulDist(p, -q, -1);
    }
  }

  /** Any pair of 16-bit samples mixed with an 8-bit weight comes back exactly. */
  lemma StoredMix(l: int, r: int, bits: nat, res: int)
    requires Is16(l) && Is16(r) && -128 <= res < 128 && res != 0
    ensures var m := Mix(l, r, bits, res); Stored(m.0, m.1, bits, res) == (l, r)
  {
    var (u, v) := Mix(l, r, bits, res);
    UnmixMix(l, r, bits, res);
    ProductSmall(res, v);
    QuotientSmall(res * v, Pow2(bits));
    Small(res * v);
    Small(u + v);
    Small(u + v - (res * v) / Pow2(bits));
    Small(l);
    Small(l - v);
    Small(r);
  }

  /** Sample j of the pair lies at j * stride. */
  lemma Apart(j: nat, k: nat, stride: nat)
    requires j < k && stride >= 2
    ensures 0 <= j * stride && j * stride + 1 < k * stride
  {
    MulMonotone(j + 1, k, stride);
    MulMonotone(0, j, stride);
  }

  /** The pairs of the first n samples stand in the output. */
  predicate Filled(out: seq<int>, u: seq<int>, v: seq<int>, n: nat, stride: nat, bits: nat, res: int) {
    && n <= |u| && n <= |v|
    && forall j :: 0 <= j < n ==> At(out, j * stride) == Stored(u[j], v[j], bits, res)
  }

  function At(out: seq<int>, i: int): (int, int) {
    if 0 <= i && i + 1 < |out| then (out[i], out[i + 1]) else (0, 0)
  }

  lemma FilledNext(before: seq<int>, out: seq<int>, u: seq<int>, v: seq<int>, n: nat, stride: nat, bits: nat, res: int)
    requires stride >= 2 && n < |u| && n < |v| && Filled(before, u, v, n, stride, bits, res)
    requires n * stride + 1 < |out| == |before|
    requires out == before[n * stride := Stored(u[n], v[n], bits, res).0][n * stride + 1 := Stored(u[n], v[n], bits, res).1]
    ensures Filled(out, u, v, n + 1, stride, bits, res)
  {
    forall j | 0 <= j < n + 1
      ensures At(out, j * stride) == Stored(u[j], v[j], bits, res)
    {
      if j < n {
        Apart(j, n, stride);
        assert At(out, j * stride) == At(before, j * stride);
      } else {
        assert 0 <= n * stride by { MulMonotone(0, n, stride); }
      }
    }
  }

  /** Whether place i holds one of the first n pairs. */
  ghost predicate PairPlace(i: int, n: nat, stride: nat) {
    exists j :: 0 <= j < n && (i == j * stride || i == j * stride + 1)
  }

  lemma PairPlaceNext(i: int, n: nat, stride: nat)
    ensures PairPlace(i, n + 1, stride) <==> PairPlace(i, n, stride) || i == n * stride || i == n * stride + 1
  {
    if PairPlace(i, n, stride) {
      var j :| 0 <= j < n && (i == j * stride || i == j * stride + 1);
      assert j < n + 1;
    }
    assert n < n + 1;
  }

  /** unmix16: the pairs are written, and the places between them are left to the other
      channels of the frame. */
  method Unmix16(u: array<int>, v: array<int>, out: array<int>, stride: nat, num: nat, bits: nat, res: int)
    requires num <= u.Length && num <= v.Length && stride >= 2 && num * stride <= out.Length
    requires out != u && out != v
    modifies out
    ensures Filled(out[..], u[..], v[..], num, stride, bits, res)
    ensures forall i :: 0 <= i < out.Length && !PairPlace(i, num, stride) ==> out[i] == old(out[i])
  {
    var op: int := 0;
    for j := 0 to num
      invariant op == j * stride && Filled(out[..], u[..], v[..], j, stride, bits, res)
      invariant forall i :: 0 <= i < out.Length && !PairPlace(i, j, stride) ==> out[i] == old(out[i])
    {
      Apart(j, num, stride);
      ghost var before := out[..];
      if res != 0 {
        var l := Wrap32(Wrap32(u[j] + v[j]) - Wrap32(res * v[j]) / Pow2(bits));
        var r := Wrap32(l - v[j]);
        out[op] := Wrap16(l);
        out[op + 1] := Wrap16(r);
      } else {
        out[op] := Wrap16(u[j]);
        out[op + 1] := Wrap16(v[j]);
      }
      FilledNext(before, out[..], u[..], v[..], j, stride, bits, res);
      forall i | 0 <= i < out.Length && !PairPlace(i, j + 1, stride)
        ensures out[i] == old(out[i])
      {
        PairPlaceNext(i, j, stride);
      }
      op := op + stride;
    }
  }
}
