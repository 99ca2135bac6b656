/** unpc_block of alac/dp_dec.c, in place. The loops for four and eight taps and the general loop
    are all proved to compute the same predictor. */
module UnpcBlock {
  import opened Arith
  import opened Predictor

  predicate IsWord(x: int) { -0x8000_0000 <= x < 0x8000_0000 }

  predicate Words(s: seq<int>) { forall i :: 0 <= i < |s| ==> IsWord(s[i]) }

  lemma WrapIs(x: int) returns (k: int)
    ensures x == Wrap32(x) + 0x1_0000_0000 * k && IsWord(Wrap32(x))
  {
    Wrap32Open(x);
    k := x / 0x1_0000_0000;
    if x % 0x1_0000_0000 >= 0x8000_0000 {
      k := k + 1;
    }
  }

  lemma WrapSame(x: int, y: int, k: int)
    requires x == y + 0x1_0000_0000 * k
    ensures Wrap32(x) == Wrap32(y)
  {
    Wrap32Open(x);
    Wrap32Open(y);
    QuotientUnique(x, 0x1_0000_0000, y / 0x1_0000_0000 + k, y % 0x1_0000_0000);
  }

  /** sign_of_int: the sign bit of -i as an unsigned word, or all ones from the sign of i. */
  method SignOfInt(i: int) returns (s: int)
    requires IsWord(i)
    ensures s == Sign(i)
  {
    var negishift := ((-i) % 0x1_0000_0000) / 0x8000_0000;
    var ones := i / 0x8000_0000;
    s := if ones == -1 then -1 else negishift;
  }

  /** (del << chanshift) >> chanshift */
  function Extend(del: int, chanshift: nat): int {
    Wrap32(del * Pow2(chanshift)) / Pow2(chanshift)
  }

  lemma ExtendArith(x: int, w: int, y: int, m: int, s: int, q: int, k: int)
    requires x == w + 0x1_0000_0000 * k && x == y + m * q && m * s == 0x1_0000_0000
    ensures w == y + m * (q - s * k)
  {
    MulAssoc(m, s, k);
    MulDist(m, q, -(s * k));
  }

  lemma ExtendIs(x: int, c: nat)
    requires 1 <= c <= 32
    ensures Extend(Wrap32(x), 32 - c) == SignExtend(x, c)
  {
    ShiftPair(Wrap32(x), c);
    var k := WrapIs(x);
    var q := SignExtendIs(x, c);
    Pow2Add(c, 32 - c);
    Pow32();
    ExtendArith(x, Wrap32(x), SignExtend(x, c), Pow2(c), Pow2(32 - c), q, k);
    SignExtendUnique(Wrap32(x), SignExtend(x, c), c, q - Pow2(32 - c) * k);
  }

  /** The products of coefficients and differences, added up. */
  function Terms(a: seq<int>, b: seq<int>, n: nat): int
    requires n <= |a| == |b|
  {
    if n == 0 then 0 else Terms(a, b, n - 1) + a[n - 1] * b[n - 1]
  }

  /** The general loop's sum and the unrolled one are opposite, up to wrapping. */
  lemma {:induction false} TermsDot(a: seq<int>, out: seq<int>, b: seq<int>, n: nat) returns (k: int)
    requires n <= |a| && |out| > |a| && b == Differences(out, |a|)
    ensures Dot(a, out, n) + Terms(a, b, n) == 0x1_0000_0000 * k
  {
    if n == 0 {
      k := 0;
    } else {
      var k' := TermsDot(a, out, b, n - 1);
      var diff := out[|out| - 1 - |a|] - out[|out| - n];
      var w := WrapIs(diff);
      assert b[n - 1] == Wrap32(diff);
      k := k' - a[n - 1] * w;
      TermArith(a[n - 1], diff, b[n - 1], w);
    }
  }

  lemma TermArith(a: int, diff: int, b: int, w: int)
    requires diff == b + 0x1_0000_0000 * w
    ensures a * (-diff) + a * b == 0x1_0000_0000 * (-(a * w))
  {
    MulDist(a, b, 0x1_0000_0000 * w);
    MulAssoc(a, 0x1_0000_0000, w);
  }

  lemma SumUnrolled(a: seq<int>, out: seq<int>, b: seq<int>, half: int)
    requires |out| > |a| && b == Differences(out, |a|)
    ensures Wrap32(half - Terms(a, b, |a|)) == Wrap32(Dot(a, out, |a|) + half)
  {
    var k := TermsDot(a, out, b, |a|);
    WrapSame(half - Terms(a, b, |a|), Dot(a, out, |a|) + half, -k);
  }

  lemma DifferencesAre(out: seq<int>, taps: nat, b: seq<int>)
    requires |out| > taps && |b| == taps
    requires forall k :: 0 <= k < taps ==> b[k] == Wrap32(out[|out| - 1 - taps] - out[|out| - 1 - k])
    ensures b == Differences(out, taps)
  {
  }

  /** One tap's turn: its coefficient moves by the sign of its difference, and the residual left over
      says whether the next tap has a turn. After tap 0 it does not matter. */
  method Turn(ghost goal: seq<int>, a: seq<int>, b: seq<int>, del: int, i: nat, weight: nat, up: bool, d: int)
      returns (r: seq<int>, del0: int, done: bool)
    requires i < |a| == |b| && weight == |a| - i && d > 0 && IsWord(b[i])
    requires goal == Adapt(a, b, del, i + 1, up, d)
    ensures |r| == |a|
    ensures if done || i == 0 then r == goal else goal == Adapt(r, b, del0, i, up, d)
  {
    AdaptTurn(a, b, del, i + 1, up, d);
    var sgn := SignOfInt(b[i]);
    if !up {
      sgn := -sgn;
    }
    r := a[i := Wrap16(a[i] - sgn)];
    del0 := Left(del, weight, sgn, b[i], d);
    done := if up then del0 <= 0 else del0 >= 0;
    if i == 0 {
      AdaptDone(r, b, del0, up, d, i);
    }
  }

  /** One adaptive step on the array: sample j is written and the coefficients go from a to r. */
  predicate Stepped(before: seq<int>, after: seq<int>, del: int, j: nat, a: seq<int>, r: seq<int>, p: Params)
    requires p.Valid() && |a| == p.taps
  {
    && j < |before| == |after| && after == before[j := after[j]]
    && Next(Block(before[..j], a), del, p) == Block(after[..j + 1], r)
  }

  lemma SteppedIs(before: seq<int>, after: seq<int>, del: int, j: nat, a: seq<int>, r: seq<int>, p: Params)
    requires p.Valid() && |a| == p.taps && Adaptive(p, j) && j < |before| == |after|
    requires after == before[j := after[j]]
    requires after[j] == Extend(Wrap32(del + (before[j - 1 - p.taps]
      + Wrap32(Dot(a, before[..j], p.taps) + Pow2(p.denshift - 1)) / Pow2(p.denshift))), 32 - p.chanbits)
    requires r == if del == 0 then a
      else Adapt(a, Differences(before[..j], p.taps), del, p.taps, del > 0, Pow2(p.denshift))
    ensures Stepped(before, after, del, j, a, r, p)
  {
    var b := Block(before[..j], a);
    assert b.out[j - 1 - p.taps] == before[j - 1 - p.taps];
    ExtendIs(del + Prediction(b, p), p.chanbits);
    assert after[..j + 1] == before[..j] + [after[j]];
    assert Sample(b, del, p) == after[j];
  }

  lemma SteppedDecode(before: seq<int>, after: seq<int>, pc: seq<int>, c: seq<int>, j: nat, r: seq<int>, p: Params)
    requires p.Valid() && |c| == p.taps && j < |pc| && j < |before|
    requires before[..j] == Decode(pc, c, p, j).out
    requires Stepped(before, after, pc[j], j, Decode(pc, c, p, j).coefs, r, p)
    ensures after[..j + 1] == Decode(pc, c, p, j + 1).out && r == Decode(pc, c, p, j + 1).coefs
    ensures forall k :: 0 <= k < |after| && k != j ==> after[k] == before[k]
  {
    assert Block(before[..j], Decode(pc, c, p, j).coefs) == Decode(pc, c, p, j);
  }

  /** The coefficients do not change before the window is full. */
  lemma {:induction false} NoAdaptation(pc: seq<int>, c: seq<int>, p: Params, n: nat)
    requires p.Valid() && |c| == p.taps && n <= |pc| && n <= p.taps + 1
    ensures Decode(pc, c, p, n).coefs == c
  {
    if n > 0 {
      NoAdaptation(pc, c, p, n - 1);
    }
  }

  /** What unpc_block requires: buffers long enough for the samples and for the warm-up, and residuals
      that are 32-bit words. pc1 and out may be the same buffer. */
  ghost predicate Ready(pc1: array<int>, out: array<int>, num: nat, coefs: array<int>, p: Params, pc: seq<int>) {
    && p.Valid() && coefs != pc1 && coefs != out
    && num <= pc1.Length && num <= out.Length && (p.taps != 31 ==> p.taps <= coefs.Length)
    && 1 <= pc1.Length && 1 <= out.Length
    && (p.taps != 31 ==> p.taps < pc1.Length && p.taps < out.Length)
    && |pc| == pc1.Length && forall k :: 0 <= k < |pc| ==> IsWord(pc[k])
  }

  lemma Terms4(a: seq<int>, b: seq<int>)
    requires |a| == |b| == 4
    ensures Terms(a, b, 4) == a[0] * b[0] + a[1] * b[1] + a[2] * b[2] + a[3] * b[3]
  {
    assert Terms(a, b, 1) == Terms(a, b, 0) + a[0] * b[0];
    assert Terms(a, b, 2) == Terms(a, b, 1) + a[1] * b[1];
    assert Terms(a, b, 3) == Terms(a, b, 2) + a[2] * b[2];
    assert Terms(a, b, 4) == Terms(a, b, 3) + a[3] * b[3];
  }

  /** The adaptation for 4 taps and a positive residual, with the loop over the taps written out. */
  method AdaptFourUp(a: seq<int>, b: seq<int>, del: int, denshift: nat) returns (r: seq<int>)
    requires |a| == |b| == 4 && Words(b)
    ensures r == Adapt(a, b, del, |a|, true, Pow2(denshift))
  {
    r := a;
    var del0, done := del, false;
    var d := Pow2(denshift);
    ghost var goal := Adapt(a, b, del0, |a|, true, d);
    r, del0, done := Turn(goal, r, b, del0, 3, 1, true, d);
    if done { return; }
    r, del0, done := Turn(goal, r, b, del0, 2, 2, true, d);
    if done { return; }
    r, del0, done := Turn(goal, r, b, del0, 1, 3, true, d);
    if done { return; }
    r, del0, done := Turn(goal, r, b, del0, 0, 4, true, d);
  }

  /** The adaptation for 4 taps and a negative residual, with the loop over the taps written out. */
  method AdaptFourDown(a: seq<int>, b: seq<int>, del: int, denshift: nat) returns (r: seq<int>)
    requires |a| == |b| == 4 && Words(b)
    ensures r == Adapt(a, b, del, |a|, false, Pow2(denshift))
  {
    r := a;
    var del0, done := del, false;
    var d := Pow2(denshift);
    ghost var goal := Adapt(a, b, del0, |a|, false, d);
    r, del0, done := Turn(goal, r, b, del0, 3, 1, false, d);
    if done { return; }
    r, del0, done := Turn(goal, r, b, del0, 2, 2, false, d);
    if done { return; }
    r, del0, done := Turn(goal, r, b, del0, 1, 3, false, d);
    if done { return; }
    r, del0, done := Turn(goal, r, b, del0, 0, 4, false, d);
  }

  method AdaptFour(a: seq<int>, b: seq<int>, del: int, denshift: nat) returns (r: seq<int>)
    requires |a| == |b| == 4 && Words(b) && IsWord(del)
    ensures r == if del == 0 then a else Adapt(a, b, del, |a|, del > 0, Pow2(denshift))
  {
    r := a;
    var sg := SignOfInt(del);
    if sg > 0 {
      r := AdaptFourUp(a, b, del, denshift);
    } else if sg < 0 {
      r := AdaptFourDown(a, b, del, denshift);
    }
  }

  /** The prediction with 4 taps, in one expression. */
  method FourSum(out: array<int>, j: nat, a: seq<int>, p: Params) returns (b: seq<int>, sum1: int)
    requires p.Valid() && |a| == p.taps == 4 < j < out.Length
    ensures b == Differences(out[..j], p.taps) && Words(b)
    ensures sum1 == Wrap32(Dot(a, out[..j], p.taps) + Pow2(p.denshift - 1)) / Pow2(p.denshift)
  {
    var top := out[j - 5];
    var denhalf := Pow2(p.denshift - 1);
    b := [
      Wrap32(top - out[j - 1]), Wrap32(top - out[j - 2]), Wrap32(top - out[j - 3]), Wrap32(top - out[j - 4])];
    DifferencesAre(out[..j], p.taps, b);
    Terms4(a, b);
    SumUnrolled(a, out[..j], b, denhalf);
    sum1 := Wrap32(denhalf - a[0] * b[0] - a[1] * b[1] - a[2] * b[2] - a[3] * b[3]) / Pow2(p.denshift);
  }

  /** One sample with 4 taps held in registers a[0] to a[3]. */
  method FourStep(pc1: array<int>, out: array<int>, j: nat, a: seq<int>, p: Params) returns (r: seq<int>)
    requires p.Valid() && |a| == p.taps == 4 < j < pc1.Length && j < out.Length && IsWord(pc1[j])
    modifies out
    ensures Stepped(old(out[..]), out[..], old(pc1[j]), j, a, r, p)
  {
    ghost var before := out[..];
    var b, sum1 := FourSum(out, j, a, p);
    var top := out[j - 5];
    var del := pc1[j];
    r := AdaptFour(a, b, del, p.denshift);
    out[j] := Extend(Wrap32(del + (top + sum1)), 32 - p.chanbits);
    SteppedIs(before, out[..], del, j, a, r, p);
  }

  /** The loop for 4 taps: the coefficients are kept in registers and stored at the end. */
  method FourTaps(pc1: array<int>, out: array<int>, num: nat, coefs: array<int>, p: Params, ghost pc: seq<int>)
    requires Ready(pc1, out, num, coefs, p, pc) && p.taps == 4 && num > 4
    requires out[..5] == Decode(pc, coefs[..4], p, 5).out
    requires forall k :: 5 <= k < num ==> pc1[k] == pc[k]
    modifies out, coefs
    ensures out[..num] == Decode(pc, old(coefs[..4]), p, num).out
    ensures coefs[..4] == Decode(pc, old(coefs[..4]), p, num).coefs
    ensures coefs[4..] == old(coefs[4..]) && out[num..] == old(out[num..])
  {
    ghost var c := coefs[..4];
    NoAdaptation(pc, c, p, 5);
    var a := coefs[..4];
    for j := 5 to num
      invariant out[..j] == Decode(pc, c, p, j).out && a == Decode(pc, c, p, j).coefs
      invariant forall k :: j <= k < num ==> pc1[k] == pc[k]
      invariant out[num..] == old(out[num..]) && coefs[..] == old(coefs[..])
    {
      ghost var before := out[..];
      a := FourStep(pc1, out, j, a, p);
      SteppedDecode(before, out[..], pc, c, j, a, p);
    }
    coefs[0] := a[0];
    coefs[1] := a[1];
    coefs[2] := a[2];
    coefs[3] := a[3];
  }

  lemma Terms8(a: seq<int>, b: seq<int>)
    requires |a| == |b| == 8
    ensures Terms(a, b, 8) == a[0] * b[0] + a[1] * b[1] + a[2] * b[2] + a[3] * b[3] + a[4] * b[4] + a[5] * b[5]
      + a[6] * b[6] + a[7] * b[7]
  {
    assert Terms(a, b, 1) == Terms(a, b, 0) + a[0] * b[0];
    assert Terms(a, b, 2) == Terms(a, b, 1) + a[1] * b[1];
    assert Terms(a, b, 3) == Terms(a, b, 2) + a[2] * b[2];
    assert Terms(a, b, 4) == Terms(a, b, 3) + a[3] * b[3];
    assert Terms(a, b, 5) == Terms(a, b, 4) + a[4] * b[4];
    assert Terms(a, b, 6) == Terms(a, b, 5) + a[5] * b[5];
    assert Terms(a, b, 7) == Terms(a, b, 6) + a[6] * b[6];
    assert Terms(a, b, 8) == Terms(a, b, 7) + a[7] * b[7];
  }

  /** Four of the eight turns, from tap i down. */
  method FourTurns(ghost goal: seq<int>, a: seq<int>, b: seq<int>, del: int, i: nat, weight: nat, up: bool, d: int)
      returns (r: seq<int>, del0: int, done: bool)
    requires 3 <= i < |a| == |b| && weight == |a| - i && d > 0 && Words(b)
    requires goal == Adapt(a, b, del, i + 1, up, d)
    ensures |r| == |a|
    ensures if done || i == 3 then r == goal else goal == Adapt(r, b, del0, i - 3, up, d)
  {
    r, del0, done := Turn(goal, a, b, del, i, weight, up, d);
    if done { return; }
    r, del0, done := Turn(goal, r, b, del0, i - 1, weight + 1, up, d);
    if done { return; }
    r, del0, done := Turn(goal, r, b, del0, i - 2, weight + 2, up, d);
    if done { return; }
    r, del0, done := Turn(goal, r, b, del0, i - 3, weight + 3, up, d);
  }

  /** The adaptation for 8 taps and a positive residual, with the loop over the taps written out. */
  method AdaptEightUp(a: seq<int>, b: seq<int>, del: int, denshift: nat) returns (r: seq<int>)
    requires |a| == |b| == 8 && Words(b)
    ensures r == Adapt(a, b, del, |a|, true, Pow2(denshift))
  {
    r := a;
    var del0, done := del, false;
    var d := Pow2(denshift);
    ghost var goal := Adapt(a, b, del0, |a|, true, d);
    r, del0, done := FourTurns(goal, r, b, del0, 7, 1, true, d);
    if done { return; }
    r, del0, done := FourTurns(goal, r, b, del0, 3, 5, true, d);
  }

  /** The adaptation for 8 taps and a negative residual, with the loop over the taps written out. */
  method AdaptEightDown(a: seq<int>, b: seq<int>, del: int, denshift: nat) returns (r: seq<int>)
    requires |a| == |b| == 8 && Words(b)
    ensures r == Adapt(a, b, del, |a|, false, Pow2(denshift))
  {
    r := a;
    var del0, done := del, false;
    var d := Pow2(denshift);
    ghost var goal := Adapt(a, b, del0, |a|, false, d);
    r, del0, done := FourTurns(goal, r, b, del0, 7, 1, false, d);
    if done { return; }
    r, del0, done := FourTurns(goal, r, b, del0, 3, 5, false, d);
  }

  method AdaptEight(a: seq<int>, b: seq<int>, del: int, denshift: nat) returns (r: seq<int>)
    requires |a| == |b| == 8 && Words(b) && IsWord(del)
    ensures r == if del == 0 then a else Adapt(a, b, del, |a|, del > 0, Pow2(denshift))
  {
    r := a;
    var sg := SignOfInt(del);
    if sg > 0 {
      r := AdaptEightUp(a, b, del, denshift);
    } else if sg < 0 {
      r := AdaptEightDown(a, b, del, denshift);
    }
  }

  /** The prediction with 8 taps, in one expression. */
  method EightSum(out: array<int>, j: nat, a: seq<int>, p: Params) returns (b: seq<int>, sum1: int)
    requires p.Valid() && |a| == p.taps == 8 < j < out.Length
    ensures b == Differences(out[..j], p.taps) && Words(b)
    ensures sum1 == Wrap32(Dot(a, out[..j], p.taps) + Pow2(p.denshift - 1)) / Pow2(p.denshift)
  {
    var top := out[j - 9];
    var denhalf := Pow2(p.denshift - 1);
    b := [
      Wrap32(top - out[j - 1]), Wrap32(top - out[j - 2]), Wrap32(top - out[j - 3]), Wrap32(top - out[j - 4]),
      Wrap32(top - out[j - 5]), Wrap32(top - out[j - 6]), Wrap32(top - out[j - 7]), Wrap32(top - out[j - 8])];
    DifferencesAre(out[..j], p.taps, b);
    Terms8(a, b);
    SumUnrolled(a, out[..j], b, denhalf);
    sum1 := Wrap32(denhalf - a[0] * b[0] - a[1] * b[1] - a[2] * b[2] - a[3] * b[3] - a[4] * b[4] - a[5] * b[5]
        - a[6] * b[6] - a[7] * b[7]) / Pow2(p.denshift);
  }

  /** One sample with 8 taps held in registers a[0] to a[7]. */
  method EightStep(pc1: array<int>, out: array<int>, j: nat, a: seq<int>, p: Params) returns (r: seq<int>)
    requires p.Valid() && |a| == p.taps == 8 < j < pc1.Length && j < out.Length && IsWord(pc1[j])
    modifies out
    ensures Stepped(old(out[..]), out[..], old(pc1[j]), j, a, r, p)
  {
    ghost var before := out[..];
    var b, sum1 := EightSum(out, j, a, p);
    var top := out[j - 9];
    var del := pc1[j];
    r := AdaptEight(a, b, del, p.denshift);
    out[j] := Extend(Wrap32(del + (top + sum1)), 32 - p.chanbits);
    SteppedIs(before, out[..], del, j, a, r, p);
  }

  /** The loop for 8 taps: the coefficients are kept in registers and stored at the end. */
  method EightTaps(pc1: array<int>, out: array<int>, num: nat, coefs: array<int>, p: Params, ghost pc: seq<int>)
    requires Ready(pc1, out, num, coefs, p, pc) && p.taps == 8 && num > 8
    requires out[..9] == Decode(pc, coefs[..8], p, 9).out
    requires forall k :: 9 <= k < num ==> pc1[k] == pc[k]
    modifies out, coefs
    ensures out[..num] == Decode(pc, old(coefs[..8]), p, num).out
    ensures coefs[..8] == Decode(pc, old(coefs[..8]), p, num).coefs
    ensures coefs[8..] == old(coefs[8..]) && out[num..] == old(out[num..])
  {
    ghost var c := coefs[..8];
    NoAdaptation(pc, c, p, 9);
    var a := coefs[..8];
    for j := 9 to num
      invariant out[..j] == Decode(pc, c, p, j).out && a == Decode(pc, c, p, j).coefs
      invariant forall k :: j <= k < num ==> pc1[k] == pc[k]
      invariant out[num..] == old(out[num..]) && coefs[..] == old(coefs[..])
    {
      ghost var before := out[..];
      a := EightStep(pc1, out, j, a, p);
      SteppedDecode(before, out[..], pc, c, j, a, p);
    }
    coefs[0] := a[0];
    coefs[1] := a[1];
    coefs[2] := a[2];
    coefs[3] := a[3];
    coefs[4] := a[4];
    coefs[5] := a[5];
    coefs[6] := a[6];
    coefs[7] := a[7];
  }

  /** The general adaptation loop, from the last tap down, until the residual is used up. */
  method AdaptLoop(coefs: array<int>, out: array<int>, j: nat, del: int, up: bool, p: Params)
    requires p.Valid() && p.taps <= coefs.Length && p.taps < j < out.Length && coefs != out
    modifies coefs
    ensures coefs[..p.taps] ==
      Adapt(old(coefs[..p.taps]), Differences(out[..j], p.taps), del, p.taps, up, Pow2(p.denshift))
    ensures coefs[p.taps..] == old(coefs[p.taps..])
  {
    var top := out[j - p.taps - 1];
    var d := Pow2(p.denshift);
    var del0 := del;
    ghost var b := Differences(out[..j], p.taps);
    ghost var goal := Adapt(coefs[..p.taps], b, del, p.taps, up, d);
    var k: nat := p.taps;
    while k > 0
      invariant 0 <= k <= p.taps && goal == Adapt(coefs[..p.taps], b, del0, k, up, d)
      invariant coefs[p.taps..] == old(coefs[p.taps..])
    {
      k := k - 1;
      ghost var before := coefs[..p.taps];
      AdaptTurn(before, b, del0, k + 1, up, d);
      var dd := Wrap32(top - out[j - 1 - k]);
      assert dd == b[k];
      var sgn := SignOfInt(dd);
      if !up {
        sgn := -sgn;
      }
      coefs[k] := Wrap16(coefs[k] - sgn);
      assert coefs[..p.taps] == before[k := Wrap16(before[k] - sgn)];
      del0 := Left(del0, p.taps - k, sgn, dd, d);
      if if up then del0 <= 0 else del0 >= 0 {
        return;
      }
    }
    AdaptDone(coefs[..p.taps], b, del0, up, d, k);
  }

  /** The general loop's sum over the taps. */
  method SumTaps(coefs: array<int>, out: array<int>, j: nat, p: Params) returns (sum1: int)
    requires p.Valid() && p.taps <= coefs.Length && p.taps < j <= out.Length
    ensures sum1 == Wrap32(Dot(coefs[..p.taps], out[..j], p.taps))
  {
    sum1 := 0;
    var top := out[j - p.taps - 1];
    ghost var c, o := coefs[..p.taps], out[..j];
    for k := 0 to p.taps
      invariant sum1 == Wrap32(Dot(c, o, k))
    {
      AddTerm(Dot(c, o, k), c[k], o[j - 1 - k] - top);
      sum1 := Wrap32(sum1 + coefs[k] * Wrap32(out[j - 1 - k] - top));
    }
  }

  lemma AddTerm(sum: int, a: int, diff: int)
    ensures Wrap32(Wrap32(sum) + a * Wrap32(diff)) == Wrap32(sum + a * diff)
  {
    var k := WrapIs(sum);
    var w := WrapIs(diff);
    MulDist(a, Wrap32(diff), 0x1_0000_0000 * w);
    MulAssoc(a, 0x1_0000_0000, w);
    WrapSame(Wrap32(sum) + a * Wrap32(diff), sum + a * diff, -k - a * w);
  }

  /** One sample of the general loop. */
  method GeneralStep(pc1: array<int>, out: array<int>, j: nat, coefs: array<int>, p: Params)
    requires p.Valid() && p.taps != 0 && p.taps != 31 && p.taps <= coefs.Length && coefs != out
    requires p.taps < j < pc1.Length && j < out.Length && IsWord(pc1[j])
    modifies out, coefs
    ensures Stepped(old(out[..]), out[..], old(pc1[j]), j, old(coefs[..p.taps]), coefs[..p.taps], p)
    ensures coefs[p.taps..] == old(coefs[p.taps..])
  {
    ghost var before := out[..];
    ghost var a := coefs[..p.taps];
    var sum1 := SumTaps(coefs, out, j, p);
    var top := out[j - p.taps - 1];
    var denhalf := Pow2(p.denshift - 1);
    var del := pc1[j];
    var sg := SignOfInt(del);
    var k := WrapIs(Dot(a, before[..j], p.taps));
    WrapSame(sum1 + denhalf, Dot(a, before[..j], p.taps) + denhalf, -k);
    out[j] := Extend(Wrap32(del + (top + Wrap32(sum1 + denhalf) / Pow2(p.denshift))), 32 - p.chanbits);
    assert out[..j] == before[..j];
    if sg > 0 {
      AdaptLoop(coefs, out, j, del, true, p);
    } else if sg < 0 {
      AdaptLoop(coefs, out, j, del, false, p);
    }
    SteppedIs(before, out[..], del, j, a, coefs[..p.taps], p);
  }

  method GeneralTaps(pc1: array<int>, out: array<int>, num: nat, coefs: array<int>, p: Params, ghost pc: seq<int>)
    requires Ready(pc1, out, num, coefs, p, pc) && p.taps != 0 && p.taps != 31 && num > p.taps
    requires out[..p.taps + 1] == Decode(pc, coefs[..p.taps], p, p.taps + 1).out
    requires forall k :: p.taps + 1 <= k < num ==> pc1[k] == pc[k]
    modifies out, coefs
    ensures out[..num] == Decode(pc, old(coefs[..p.taps]), p, num).out
    ensures coefs[..p.taps] == Decode(pc, old(coefs[..p.taps]), p, num).coefs
    ensures coefs[p.taps..] == old(coefs[p.taps..]) && out[num..] == old(out[num..])
  {
    ghost var c := coefs[..p.taps];
    NoAdaptation(pc, c, p, p.taps + 1);
    for j := p.taps + 1 to num
      invariant out[..j] == Decode(pc, c, p, j).out && coefs[..p.taps] == Decode(pc, c, p, j).coefs
      invariant forall k :: j <= k < num ==> pc1[k] == pc[k]
      invariant out[num..] == old(out[num..]) && coefs[p.taps..] == old(coefs[p.taps..])
    {
      ghost var before := out[..];
      GeneralStep(pc1, out, j, coefs, p);
      SteppedDecode(before, out[..], pc, c, j, coefs[..p.taps], p);
    }
  }

  lemma {:induction false} DecodeGrows(pc: seq<int>, c: seq<int>, p: Params, m: nat, n: nat)
    requires p.Valid() && |c| == p.taps && m <= n <= |pc|
    ensures Decode(pc, c, p, n).out[..m] == Decode(pc, c, p, m).out
    ensures n <= p.taps + 1 || p.taps == 0 || p.taps == 31 ==> Decode(pc, c, p, n).coefs == c
  {
    if n > 0 {
      if m < n {
        DecodeGrows(pc, c, p, m, n - 1);
      } else {
        DecodeGrows(pc, c, p, m - 1, n - 1);
      }
    }
  }

  /** One sample of the first-order loops: the residual is added to the sample before. */
  lemma FirstOrderStep(before: seq<int>, after: seq<int>, pc: seq<int>, c: seq<int>, j: nat, p: Params)
    requires p.Valid() && |c| == p.taps && 0 < j < |pc| && j < |before| == |after|
    requires p.taps != 0 && !Adaptive(p, j) && before[..j] == Decode(pc, c, p, j).out
    requires after == before[j := after[j]]
    requires after[j] == Extend(Wrap32(pc[j] + before[j - 1]), 32 - p.chanbits)
    ensures after[..j + 1] == Decode(pc, c, p, j + 1).out
  {
    ExtendIs(pc[j] + before[j - 1], p.chanbits);
    assert before[j - 1] == before[..j][j - 1];
    assert after[..j + 1] == before[..j] + [after[j]];
  }

  /** The loop for 31 taps, a code for plain first-order prediction. */
  method FirstOrder(pc1: array<int>, out: array<int>, num: nat, p: Params, ghost c: seq<int>, ghost pc: seq<int>)
    requires p.Valid() && p.taps == 31 && |c| == 31 && num <= pc1.Length == |pc| && 1 <= num <= out.Length
    requires out[0] == pc[0] && forall k :: 1 <= k < num ==> pc1[k] == pc[k]
    modifies out
    ensures out[..num] == Decode(pc, c, p, num).out && out[num..] == old(out[num..])
  {
    var prev := out[0];
    assert Decode(pc, c, p, 1).out == [pc[0]] by { assert Decode(pc, c, p, 0).out == []; }
    for j := 1 to num
      invariant prev == out[j - 1] && out[..j] == Decode(pc, c, p, j).out
      invariant out[num..] == old(out[num..]) && forall k :: j <= k < num ==> pc1[k] == pc[k]
    {
      ghost var before := out[..];
      var del := Wrap32(pc1[j] + prev);
      prev := Extend(del, 32 - p.chanbits);
      out[j] := prev;
      FirstOrderStep(before, out[..], pc, c, j, p);
    }
  }

  /** The warm-up loop, which fills the window whatever num is. */
  method WarmUp(pc1: array<int>, out: array<int>, p: Params, ghost c: seq<int>, ghost pc: seq<int>)
    requires p.Valid() && p.taps != 0 && p.taps != 31 && |c| == p.taps
    requires p.taps < pc1.Length == |pc| && p.taps < out.Length
    requires out[0] == pc[0] && forall k :: 1 <= k < pc1.Length ==> pc1[k] == pc[k]
    modifies out
    ensures out[..p.taps + 1] == Decode(pc, c, p, p.taps + 1).out
    ensures out[p.taps + 1..] == old(out[p.taps + 1..])
    ensures forall k :: p.taps + 1 <= k < pc1.Length ==> pc1[k] == pc[k]
  {
    assert Decode(pc, c, p, 1).out == [pc[0]] by { assert Decode(pc, c, p, 0).out == []; }
    for j := 1 to p.taps + 1
      invariant out[..j] == Decode(pc, c, p, j).out
      invariant out[p.taps + 1..] == old(out[p.taps + 1..])
      invariant forall k :: j <= k < pc1.Length ==> pc1[k] == pc[k]
    {
      ghost var before := out[..];
      var del := Wrap32(pc1[j] + out[j - 1]);
      out[j] := Extend(del, 32 - p.chanbits);
      FirstOrderStep(before, out[..], pc, c, j, p);
    }
  }

  lemma {:induction false} CopyDecode(pc: seq<int>, p: Params, n: nat)
    requires p.Valid() && p.taps == 0 && n <= |pc|
    ensures Decode(pc, [], p, n) == Block(pc[..n], [])
  {
    if n > 0 {
      CopyDecode(pc, p, n - 1);
      assert pc[..n] == pc[..n - 1] + [pc[n - 1]];
    }
  }

  /** The residuals copied, unless the two buffers are the same. */
  method Copy(pc1: array<int>, out: array<int>, num: nat, p: Params, ghost pc: seq<int>)
    requires p.Valid() && p.taps == 0 && num <= pc1.Length == |pc| && 1 <= num <= out.Length
    requires out[0] == pc[0] && forall k :: 1 <= k < num ==> pc1[k] == pc[k]
    modifies out
    ensures out[..num] == Decode(pc, [], p, num).out && out[num..] == old(out[num..])
  {
    CopyDecode(pc, p, num);
    if num > 1 && pc1 != out {
      for j := 1 to num
        invariant out[..j] == pc[..j] && out[num..] == old(out[num..])
      {
        out[j] := pc1[j];
      }
    }
    assert out[..num] == pc[..num];
  }

  /** The coefficients in use: none are read for 31 taps. */
  function Start(coefs: seq<int>, p: Params): (c: seq<int>)
    requires p.taps <= |coefs| || p.taps == 31
    ensures |c| == p.taps
  {
    if p.taps == 31 then seq(31, _ => 0) else coefs[..p.taps]
  }

  /** unpc_block: whichever loop runs, the samples and coefficients are those of the predictor. */
  method Unpc(pc1: array<int>, out: array<int>, num: nat, coefs: array<int>, p: Params)
    requires Ready(pc1, out, num, coefs, p, pc1[..])
    modifies out, coefs
    ensures var b := Decode(old(pc1[..]), Start(old(coefs[..]), p), p, num);
      out[..num] == b.out && (p.taps != 31 ==> coefs[..p.taps] == b.coefs)
    ensures p.taps == 31 ==> coefs[..] == old(coefs[..])
    ensures p.taps != 31 ==> coefs[p.taps..] == old(coefs[p.taps..])
  {
    ghost var pc, c := pc1[..], Start(coefs[..], p);
    DecodeGrows(pc, c, p, num, num);
    out[0] := pc1[0];
    if p.taps == 0 {
      if num > 0 {
        Copy(pc1, out, num, p, pc);
      }
    } else if p.taps == 31 {
      if num > 0 {
        FirstOrder(pc1, out, num, p, c, pc);
      }
    } else {
      WarmUp(pc1, out, p, c, pc);
      if num > p.taps {
        if p.taps == 4 {
          FourTaps(pc1, out, num, coefs, p, pc);
        } else if p.taps == 8 {
          EightTaps(pc1, out, num, coefs, p, pc);
        } else {
          GeneralTaps(pc1, out, num, coefs, p, pc);
        }
      } else {
        DecodeGrows(pc, c, p, num, p.taps + 1);
        assert out[..num] == out[..p.taps + 1][..num];
      }
    }
  }
}
