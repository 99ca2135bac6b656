/** dyn_decomp of alac/ag_dec.c: the decoding loop, which adapts the code to a running mean and codes
    runs of zeros apart. */
module DynDecomp {
  import opened Arith
  import opened Bytes
  import opened BitStream
  import opened Golomb

  /** The parameters of the adaptive code: first mean, its gain, and the greatest remainder width. */
  datatype Ag = Ag(mb0: nat, pb: nat, kb: nat) {
    predicate Valid() { mb0 <= MEAN && pb <= 127 && 1 <= kb <= 14 }
  }

  /** The mean never passes 2^25. */
  const MEAN := 0x200_0000

  const WORD := 0x1_0000_0000

  /** The place of the highest one bit. */
  function Log2(x: nat): nat
    requires x > 0
  {
    if x == 1 then 0 else 1 + Log2(x / 2)
  }

  lemma {:induction false} Log2Is(x: nat, j: nat)
    requires Pow2(j) <= x < Pow2(j + 1)
    ensures Log2(x) == j
  {
    if j > 0 {
      Log2Is(x / 2, j - 1);
    }
  }

  function Min(a: nat, b: nat): nat { if a < b then a else b }

  /** The remainder width for mean mb. */
  function Width(mb: nat, kb: nat): (k: nat)
    requires kb >= 1
    ensures 1 <= k <= kb
  {
    Min(Log2(mb / 512 + 3), kb)
  }

  /** The remainder width for a run of zeros. */
  function RunWidth(mb: nat): (k: nat)
    requires mb < 128
    ensures 2 <= k <= 8
  {
    if mb == 0 then 8 else
      LowLog(mb);
      7 - Log2(mb) + (mb + 16) / 64
  }

  lemma LowLog(mb: nat)
    requires 0 < mb < 128
    ensures Log2(mb) <= 6 && (mb < 64 ==> Log2(mb) <= 5)
  {
    Log2Bound(mb, 7);
    if mb < 64 {
      Log2Bound(mb, 6);
    }
    assert Pow2(3) == 8 && Pow2(5) == 32 && Pow2(7) == 128;
  }

  lemma {:induction false} Log2Bound(x: nat, j: nat)
    requires 0 < x < Pow2(j)
    ensures Log2(x) < j
  {
    if x > 1 {
      Log2Bound(x / 2, j - 1);
    }
  }

  /** The signed sample for a code: the least significant bit is the sign. The sum wraps at 32 bits. */
  function Unfold(n: nat): int {
    var half := ((n + 1) % WORD) / 2;
    if n % 2 == 1 then -half else half
  }

  /** The code that stands for a sample: Unfold undoes it. */
  function Fold(d: int): nat { if d < 0 then -2 * d - 1 else 2 * d }

  lemma UnfoldFold(d: int)
    requires -0x8000_0000 < d < 0x8000_0000
    ensures Fold(d) < WORD && Unfold(Fold(d)) == d
  {
  }

  /** No code stands for the least 32-bit number. */
  lemma UnfoldRange(n: nat)
    requires n < WORD
    ensures -0x8000_0000 < Unfold(n) < 0x8000_0000
  {
    if n == WORD - 1 {
      assert (n + 1) % WORD == 0;
    } else {
      assert (n + 1) % WORD == n + 1;
    }
  }

  /** The mean after code n. */
  function Mean(mb: nat, n: nat, zmode: nat, pb: nat, fold: nat := 3): (r: nat)
    requires mb <= MEAN && pb <= 127 && zmode <= 1
    ensures r <= MEAN
  {
    if fold > 0 then Mean(mb, n, zmode, pb, fold - 1)
    else if n > 0xffff then 0xffff
    else
      MeanBound(mb, n + zmode, pb);
      pb * (n + zmode) + mb - pb * mb / 512
  }

  lemma {:induction false} MeanIs(mb: nat, n: nat, zmode: nat, pb: nat, fold: nat := 3)
    requires mb <= MEAN && pb <= 127 && zmode <= 1
    ensures Mean(mb, n, zmode, pb, fold) == if n > 0xffff then 0xffff else pb * (n + zmode) + mb - pb * mb / 512
  {
    if fold > 0 {
      MeanIs(mb, n, zmode, pb, fold - 1);
    }
  }

  lemma MeanBound(mb: nat, n: nat, pb: nat)
    requires mb <= MEAN && pb <= 127 && n <= 0x1_0000
    ensures 0 <= pb * mb / 512 <= mb && pb * n + mb - pb * mb / 512 <= MEAN
    ensures pb * mb < WORD && pb * n < WORD
  {
    MulMonotone(n, 0x1_0000, pb);
    MulMonotone(pb, 127, mb);
    MulMonotone(mb, MEAN, pb);
    var t := MEAN - mb;
    assert pb * mb == pb * MEAN - pb * t by { MulDist(pb, MEAN, -t); }
    MulMonotone(pb, 512, t);
    assert pb * mb >= 0 by { MulMonotone(0, pb, mb); }
  }

  /** Where decoding stands: bit position, mean, zero mode, and the samples so far. */
  datatype State = State(pos: nat, mb: nat, zmode: nat, out: seq<int>)

  datatype Result = Result(ok: bool, out: seq<int>, pos: nat)

  /** The stream before bit end, with sixteen readable bytes after it. */
  predicate Readable(s: seq<Byte>, end: nat) { end + 128 <= 8 * |s| }

  predicate Good(st: State, num: nat) { st.mb <= MEAN && st.zmode <= 1 && |st.out| <= num }

  /** One code: its number, then the state with its sample. */
  function Coded(s: seq<Byte>, end: nat, st: State, ag: Ag, size: nat): (r: (nat, State))
    requires Readable(s, end) && ag.Valid() && 1 <= size <= 32 && st.pos < end && st.mb <= MEAN && st.zmode <= 1
    ensures st.pos < r.1.pos <= st.pos + 55 && r.1.mb <= MEAN && |r.1.out| == |st.out| + 1
  {
    var k := Width(st.mb, ag.kb);
    var c := CodeAt(s, st.pos, Pow2(k) - 1, k, size);
    var sample := Unfold((c.value + st.zmode) % WORD);
    (c.value, State(st.pos + c.length, Mean(st.mb, c.value, st.zmode, ag.pb), 0, st.out + [sample]))
  }

  function Zeros(n: nat): (z: seq<int>)
    ensures |z| == n && forall i :: 0 <= i < n ==> z[i] == 0
  {
    seq(n, _ => 0)
  }

  /** A run of zeros is coded when the mean is small and samples are still due. */
  predicate RunDue(st: State, num: nat) { 4 * st.mb < 512 && |st.out| < num }

  /** The code of the run. */
  function Run(s: seq<Byte>, end: nat, st: State, ag: Ag): (c: Code)
    requires Readable(s, end) && ag.Valid() && st.mb < 128 && st.pos <= end + 55
    ensures 1 <= c.length <= 33
  {
    var k := RunWidth(st.mb);
    CodeAt(s, st.pos, Pow2(Min(k, ag.kb)) - 1, k, 16)
  }

  /** The whole decoding from a state on. */
  function Decomp(s: seq<Byte>, end: nat, st: State, num: nat, ag: Ag, size: nat, fold: nat := 3): (r: Result)
    requires Readable(s, end) && ag.Valid() && 1 <= size <= 32 && Good(st, num)
    ensures |st.out| <= |r.out| <= num && st.out == r.out[..|st.out|] && st.pos <= r.pos
    ensures r.ok ==> |r.out| == num
    decreases num - |st.out|, fold
  {
    if fold > 0 then Decomp(s, end, st, num, ag, size, fold - 1)
    else if |st.out| >= num then Result(true, st.out, st.pos)
    else if st.pos >= end then Result(false, st.out, st.pos)
    else
      var next := Coded(s, end, st, ag, size).1;
      if !RunDue(next, num) then Decomp(s, end, next, num, ag, size)
      else
        var run := Run(s, end, next, ag);
        if |next.out| + run.value > num then Result(false, next.out, next.pos + run.length)
        else Decomp(s, end, AfterRun(next, run), num, ag, size)
  }

  /** One turn of the decoding. */
  lemma {:induction false} DecompTurn(s: seq<Byte>, end: nat, st: State, num: nat, ag: Ag, size: nat, fold: nat := 3)
    requires Readable(s, end) && ag.Valid() && 1 <= size <= 32 && Good(st, num)
    ensures Decomp(s, end, st, num, ag, size, fold) ==
      if |st.out| >= num then Result(true, st.out, st.pos)
      else if st.pos >= end then Result(false, st.out, st.pos)
      else
        var next := Coded(s, end, st, ag, size).1;
        if !RunDue(next, num) then Decomp(s, end, next, num, ag, size)
        else
          var run := Run(s, end, next, ag);
          if |next.out| + run.value > num then Result(false, next.out, next.pos + run.length)
          else Decomp(s, end, AfterRun(next, run), num, ag, size)
  {
    if fold > 0 {
      DecompTurn(s, end, st, num, ag, size, fold - 1);
    }
  }

  /** After a run the mean starts from zero, and the next sample cannot be zero unless the run was full. */
  function AfterRun(st: State, run: Code): State {
    State(st.pos + run.length, 0, if run.value >= 65535 then 0 else 1, st.out + Zeros(run.value))
  }

  /** lg3a, limited to kb. */
  method CodeWidth(mb: nat, kb: nat) returns (k: nat)
    requires mb <= MEAN && kb >= 1
    ensures k == Width(mb, kb)
  {
    var x := mb / 512 + 3;
    var zeros := Lead(x);
    Log2Is(x, 31 - zeros);
    var log := 31 - zeros;
    k := if log < kb then log else kb;
  }

  method RunCodeWidth(mb: nat) returns (k: nat)
    requires mb < 128
    ensures k == RunWidth(mb)
  {
    var zeros := Lead(mb);
    if mb != 0 {
      Log2Is(mb, 31 - zeros);
      LowLog(mb);
    }
    var sum: int := zeros - 24 + (mb + 16) / 64;
    k := sum;
  }

  /** The mean in 32-bit arithmetic. */
  method NextMean(mb: nat, n: nat, zmode: nat, pb: nat) returns (next: nat)
    requires mb <= MEAN && pb <= 127 && zmode <= 1
    ensures next == Mean(mb, n, zmode, pb)
  {
    next := (pb * ((n + zmode) % WORD) % WORD + mb - pb * mb % WORD / 512) % WORD;
    if n > 0xffff {
      next := 0xffff;
    }
    MeanWraps(mb, n, zmode, pb);
  }

  /** Up to the clamp no step of the mean wraps. */
  lemma MeanWraps(mb: nat, n: nat, zmode: nat, pb: nat)
    requires mb <= MEAN && pb <= 127 && zmode <= 1
    ensures Mean(mb, n, zmode, pb) ==
      if n > 0xffff then 0xffff else (pb * ((n + zmode) % WORD) % WORD + mb - pb * mb % WORD / 512) % WORD
  {
    MeanIs(mb, n, zmode, pb);
    if n <= 0xffff {
      var t := n + zmode;
      MeanBound(mb, t, pb);
      SmallWord(t);
      NoWrap(pb * t, pb * mb, mb);
    }
  }

  lemma NoWrap(gain: nat, loss: nat, mb: nat)
    requires gain < WORD && loss < WORD && 0 <= gain + mb - loss / 512 < WORD
    ensures (gain % WORD + mb - loss % WORD / 512) % WORD == gain + mb - loss / 512
  {
    SmallWord(gain);
    SmallWord(loss);
    SmallWord(gain + mb - loss / 512);
  }

  lemma SmallWord(x: int)
    ensures 0 <= x < WORD ==> x % WORD == x
  {
  }

  /** One code is read and its sample stored. */
  method CodedStep(s: seq<Byte>, end: nat, pc: array<int>, c: nat, ghost st: State, pos: nat, mb: nat, zmode: nat,
      ag: Ag, size: nat)
      returns (n: nat, newPos: nat, newMb: nat)
    requires Readable(s, end) && ag.Valid() && 1 <= size <= 32 && pos < end && mb <= MEAN && zmode <= 1
    requires c < pc.Length && st == State(pos, mb, zmode, pc[..c])
    modifies pc
    ensures (n, State(newPos, newMb, 0, pc[..c + 1])) == Coded(s, end, st, ag, size)
    ensures forall i :: c < i < pc.Length ==> pc[i] == old(pc[i])
  {
    var k := CodeWidth(mb, ag.kb);
    var m := Pow2(k) - 1;
    assert k == 1 ==> m == 1;
    n, newPos := DynGet32(s, pos, m, k, size);
    var ndecode := (n + zmode) % WORD;
    var multiplier := if ndecode % 2 == 1 then -1 else 1;
    pc[c] := ((ndecode + 1) % WORD / 2) * multiplier;
    newMb := NextMean(mb, n, zmode, ag.pb);
    assert pc[..c + 1] == st.out + [Unfold(ndecode)];
  }

  /** A run of zeros is read; it is stored unless it would pass the number of samples. */
  method RunStep(s: seq<Byte>, end: nat, pc: array<int>, c: nat, num: nat, ghost st: State, pos: nat, mb: nat, ag: Ag)
      returns (ok: bool, n: nat, newPos: nat)
    requires Readable(s, end) && ag.Valid() && pos <= end + 55 && mb < 128
    requires c <= num <= pc.Length && st == State(pos, mb, 0, pc[..c])
    modifies pc
    ensures var run := Run(s, end, st, ag);
      n == run.value && newPos == pos + run.length && ok == (c + n <= num)
    ensures ok ==> pc[..c + n] == st.out + Zeros(n)
    ensures !ok ==> pc[..c] == old(pc[..c])
    ensures forall i :: (if ok then c + n else c) <= i < pc.Length ==> pc[i] == old(pc[i])
  {
    var k := RunCodeWidth(mb);
    var mz := Pow2(if k < ag.kb then k else ag.kb) - 1;
    n, newPos := DynGet(s, pos, mz, k);
    ok := c + n <= num;
    if ok {
      for j := 0 to n
        invariant pc[..c + j] == st.out + Zeros(j)
        invariant forall i :: c + j <= i < pc.Length ==> pc[i] == old(pc[i])
      {
        pc[c + j] := 0;
      }
    }
  }

  /** dyn_decomp: no more than num samples are written, and they are the decoding of the stream. */
  method Decode(s: seq<Byte>, startPos: nat, end: nat, pc: array<int>, num: nat, ag: Ag, size: nat)
      returns (ok: bool, c: nat, numBits: nat)
    requires Readable(s, end) && ag.Valid() && 1 <= size <= 32 && num <= pc.Length
    modifies pc
    ensures var r := Decomp(s, end, State(startPos, ag.mb0, 0, []), num, ag, size);
      ok == r.ok && c == |r.out| <= num && pc[..c] == r.out && startPos + numBits == r.pos
    ensures forall i :: c <= i < pc.Length ==> pc[i] == old(pc[i])
  {
    ghost var goal := Decomp(s, end, State(startPos, ag.mb0, 0, []), num, ag, size);
    ghost var begin := pc[..];
    var bitPos: nat, mb: nat, zmode: nat := startPos, ag.mb0, 0;
    c := 0;
    while c < num
      invariant c <= num && mb <= MEAN && zmode <= 1 && startPos <= bitPos
      invariant goal == Decomp(s, end, State(bitPos, mb, zmode, pc[..c]), num, ag, size)
      invariant forall i :: c <= i < pc.Length ==> pc[i] == begin[i]
    {
      if bitPos >= end {
        DecompTurn(s, end, State(bitPos, mb, zmode, pc[..c]), num, ag, size);
        return false, c, bitPos - startPos;
      }
      ghost var st := State(bitPos, mb, zmode, pc[..c]);
      DecompTurn(s, end, st, num, ag, size);
      var n, newPos, newMb := CodedStep(s, end, pc, c, st, bitPos, mb, zmode, ag, size);
      bitPos, mb, zmode, c := newPos, newMb, 0, c + 1;
      if 4 * mb < 512 && c < num {
        ghost var next := State(bitPos, mb, zmode, pc[..c]);
        var fits, run, afterPos := RunStep(s, end, pc, c, num, next, bitPos, mb, ag);
        bitPos := afterPos;
        if !fits {
          return false, c, bitPos - startPos;
        }
        c := c + run;
        zmode := if run >= 65535 then 0 else 1;
        mb := 0;
        assert State(bitPos, mb, zmode, pc[..c]) == AfterRun(next, Run(s, end, next, ag));
      }
    }
    DecompTurn(s, end, State(bitPos, mb, zmode, pc[..c]), num, ag, size);
    return true, c, bitPos - startPos;
  }
}
