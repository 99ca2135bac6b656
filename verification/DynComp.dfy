/** The encoder that belongs to dyn_decomp of alac/ag_dec.c: it keeps the same running mean, codes runs of
    zeros in the same places, and writes one code word for each code that is read. */
module DynComp {
  import opened Arith
  import opened Bytes
  import opened BitStream
  import opened Golomb
  import opened DynDecomp

  /** The zeros from place c on, at most limit. */
  function ZeroRun(x: seq<int>, c: nat, limit: nat): (n: nat)
    requires c <= |x|
    ensures n <= limit && c + n <= |x|
    ensures forall i :: c <= i < c + n ==> x[i] == 0
    ensures n < limit && c + n < |x| ==> x[c + n] != 0
    decreases |x| - c
  {
    if c == |x| || limit == 0 || x[c] != 0 then 0 else 1 + ZeroRun(x, c + 1, limit - 1)
  }

  /** Samples that have a code: the escape holds their number. The least 32-bit number has none. */
  predicate Codable(x: seq<int>, size: nat) {
    forall i :: 0 <= i < |x| ==> Fold(x[i]) < Pow2(size) && -0x8000_0000 < x[i] < 0x8000_0000
  }

  /** Where encoding stands: the next sample, the mean, and the zero mode. */
  datatype Place = Place(c: nat, mb: nat, zmode: nat)

  /** In zero mode the next sample is not zero. */
  predicate Proper(x: seq<int>, p: Place) {
    p.c <= |x| && p.mb <= MEAN && p.zmode <= 1 && (p.zmode == 1 && p.c < |x| ==> x[p.c] != 0)
  }

  /** The number that is coded for the next sample. */
  function Number(x: seq<int>, p: Place): nat
    requires Proper(x, p) && p.c < |x|
  {
    Fold(x[p.c]) - p.zmode
  }

  function Ones(k: nat): (m: nat)
    requires k >= 1
    ensures Coder(m, k)
  {
    assert Pow2(k) == 2 * Pow2(k - 1);
    Pow2(k) - 1
  }

  function SampleWord(x: seq<int>, p: Place, ag: Ag, size: nat): (w: Code)
    requires Proper(x, p) && p.c < |x| && ag.Valid()
    ensures w.length >= 1
  {
    var k := Width(p.mb, ag.kb);
    Codeword(Number(x, p), Ones(k), k, size)
  }

  function AfterSample(x: seq<int>, p: Place, ag: Ag): (q: Place)
    requires Proper(x, p) && p.c < |x| && ag.Valid()
    ensures Proper(x, q) && q.c == p.c + 1
  {
    Place(p.c + 1, Mean(p.mb, Number(x, p), p.zmode, ag.pb), 0)
  }

  /** A run is coded under the decoder's condition. */
  predicate Due(x: seq<int>, p: Place) { 4 * p.mb < 512 && p.c < |x| }

  function Zeroes(x: seq<int>, p: Place): (n: nat)
    requires Proper(x, p)
    ensures n <= 65535 && p.c + n <= |x|
  {
    ZeroRun(x, p.c, 65535)
  }

  lemma RunCoder(k: nat, kb: nat)
    requires k >= 1 && kb >= 1
    ensures Coder(Pow2(Min(k, kb)) - 1, k)
  {
    Pow2Monotone(1, Min(k, kb));
    Pow2Monotone(Min(k, kb), k);
    assert Pow2(1) == 2;
  }

  function RunWord(x: seq<int>, p: Place, ag: Ag): (w: Code)
    requires Proper(x, p) && Due(x, p) && ag.Valid()
    ensures w.length >= 1
  {
    var k := RunWidth(p.mb);
    RunCoder(k, ag.kb);
    Codeword(Zeroes(x, p), Pow2(Min(k, ag.kb)) - 1, k, 16)
  }

  function AfterZeroes(x: seq<int>, p: Place): (q: Place)
    requires Proper(x, p)
    ensures Proper(x, q) && q.c == p.c + Zeroes(x, p)
  {
    Place(p.c + Zeroes(x, p), 0, if Zeroes(x, p) >= 65535 then 0 else 1)
  }

  /** The words for the samples from a place on. */
  function Words(x: seq<int>, p: Place, ag: Ag, size: nat): seq<Code>
    requires Proper(x, p) && ag.Valid()
    decreases |x| - p.c
  {
    if p.c == |x| then [] else
      var q := AfterSample(x, p, ag);
      if !Due(x, q) then [SampleWord(x, p, ag, size)] + Words(x, q, ag, size)
      else [SampleWord(x, p, ag, size)] + ([RunWord(x, q, ag)] + Words(x, AfterZeroes(x, q), ag, size))
  }

  /** The bits that words take. */
  function Total(words: seq<Code>): nat {
    if words == [] then 0 else words[0].length + Total(words[1..])
  }

  /** The stream holds these words from bit pos on. */
  ghost predicate Laid(s: seq<Byte>, pos: nat, words: seq<Code>)
    decreases |words|
  {
    words != [] ==>
      && Holds(s, pos + words[0].length) && Bits(s, pos, words[0].length) == words[0].value
      && Laid(s, pos + words[0].length, words[1..])
  }

  lemma LaidFirst(s: seq<Byte>, pos: nat, w: Code, words: seq<Code>)
    requires Laid(s, pos, [w] + words)
    ensures Holds(s, pos + w.length) && Bits(s, pos, w.length) == w.value && Laid(s, pos + w.length, words)
    ensures Total([w] + words) == w.length + Total(words)
  {
    assert ([w] + words)[1..] == words;
  }

  /** The decoder's state at a place. */
  function StateAt(x: seq<int>, p: Place, pos: nat): State
    requires p.c <= |x|
  {
    State(pos, p.mb, p.zmode, x[..p.c])
  }

  /** The word of the next sample lies at pos. */
  ghost predicate SampleLies(s: seq<Byte>, end: nat, x: seq<int>, p: Place, pos: nat, ag: Ag, size: nat) {
    && Readable(s, end) && ag.Valid() && 1 <= size <= 32 && pos < end
    && Proper(x, p) && p.c < |x| && Codable(x, size)
    && var w := SampleWord(x, p, ag, size); Holds(s, pos + w.length) && Bits(s, pos, w.length) == w.value
  }

  lemma NumberUnfolds(x: seq<int>, p: Place, size: nat)
    requires Proper(x, p) && p.c < |x| && Codable(x, size)
    ensures Number(x, p) < Pow2(size) && Unfold((Number(x, p) + p.zmode) % WORD) == x[p.c]
  {
    UnfoldFold(x[p.c]);
  }

  lemma SampleCode(s: seq<Byte>, end: nat, x: seq<int>, p: Place, pos: nat, ag: Ag, size: nat)
    requires SampleLies(s, end, x, p, pos, ag, size)
    ensures var k := Width(p.mb, ag.kb);
      CodeAt(s, pos, Ones(k), k, size) == Code(Number(x, p), SampleWord(x, p, ag, size).length)
  {
    var k := Width(p.mb, ag.kb);
    NumberUnfolds(x, p, size);
    CodewordDecodes(s, pos, Number(x, p), Ones(k), k, size);
  }

  /** The decoder reads back one sample. */
  lemma SampleDecodes(s: seq<Byte>, end: nat, x: seq<int>, p: Place, pos: nat, ag: Ag, size: nat)
    requires SampleLies(s, end, x, p, pos, ag, size)
    ensures Coded(s, end, StateAt(x, p, pos), ag, size).1
            == StateAt(x, AfterSample(x, p, ag), pos + SampleWord(x, p, ag, size).length)
  {
    SampleCode(s, end, x, p, pos, ag, size);
    NumberUnfolds(x, p, size);
    assert x[..p.c + 1] == x[..p.c] + [x[p.c]];
  }

  /** The word of the next run lies at pos. */
  ghost predicate RunLies(s: seq<Byte>, end: nat, x: seq<int>, p: Place, pos: nat, ag: Ag) {
    && Readable(s, end) && ag.Valid() && pos < end && Proper(x, p) && Due(x, p)
    && var w := RunWord(x, p, ag); Holds(s, pos + w.length) && Bits(s, pos, w.length) == w.value
  }

  /** And one run of zeros. */
  lemma RunDecodes(s: seq<Byte>, end: nat, x: seq<int>, p: Place, pos: nat, ag: Ag)
    requires RunLies(s, end, x, p, pos, ag)
    ensures var run := Run(s, end, StateAt(x, p, pos), ag);
      && run == Code(Zeroes(x, p), RunWord(x, p, ag).length)
      && AfterRun(StateAt(x, p, pos), run) == StateAt(x, AfterZeroes(x, p), pos + RunWord(x, p, ag).length)
  {
    var k, n := RunWidth(p.mb), Zeroes(x, p);
    Eight();
    RunCoder(k, ag.kb);
    CodewordDecodes(s, pos, n, Pow2(Min(k, ag.kb)) - 1, k, 16);
    assert x[..p.c + n] == x[..p.c] + Zeros(n);
  }

  /** One turn of the decoder on a sample with no run behind it, and on one with a run. */
  lemma TurnAlone(s: seq<Byte>, end: nat, x: seq<int>, p: Place, pos: nat, ag: Ag, size: nat)
    requires SampleLies(s, end, x, p, pos, ag, size) && !Due(x, AfterSample(x, p, ag))
    ensures Decomp(s, end, StateAt(x, p, pos), |x|, ag, size)
            == Decomp(s, end, StateAt(x, AfterSample(x, p, ag), pos + SampleWord(x, p, ag, size).length), |x|, ag, size)
  {
    DecompTurn(s, end, StateAt(x, p, pos), |x|, ag, size);
    SampleDecodes(s, end, x, p, pos, ag, size);
  }

  lemma TurnWithRun(s: seq<Byte>, end: nat, x: seq<int>, p: Place, pos: nat, q: Place, pos': nat, ag: Ag, size: nat)
    requires SampleLies(s, end, x, p, pos, ag, size) && RunLies(s, end, x, q, pos', ag)
    requires q == AfterSample(x, p, ag) && pos' == pos + SampleWord(x, p, ag, size).length
    ensures Decomp(s, end, StateAt(x, p, pos), |x|, ag, size)
            == Decomp(s, end, StateAt(x, AfterZeroes(x, q), pos' + RunWord(x, q, ag).length), |x|, ag, size)
  {
    DecompTurn(s, end, StateAt(x, p, pos), |x|, ag, size);
    SampleDecodes(s, end, x, p, pos, ag, size);
    RunDecodes(s, end, x, q, pos', ag);
  }

  /** The stream holds the words of the samples from p on, in the n bits from pos. Lemma EncodedIs opens the
      definition. */
  ghost predicate Encoded(s: seq<Byte>, end: nat, x: seq<int>, p: Place, pos: nat, ag: Ag, size: nat, n: nat,
      fold: nat := 3) {
    if fold > 0 then Encoded(s, end, x, p, pos, ag, size, n, fold - 1)
    else
      && Readable(s, end) && ag.Valid() && 1 <= size <= 32 && Proper(x, p) && Codable(x, size)
      && var words := Words(x, p, ag, size); Laid(s, pos, words) && n == Total(words) && pos + n <= end
  }

  lemma {:induction false} EncodedIs(s: seq<Byte>, end: nat, x: seq<int>, p: Place, pos: nat, ag: Ag, size: nat,
      n: nat, fold: nat := 3)
    ensures Encoded(s, end, x, p, pos, ag, size, n, fold) <==>
      && Readable(s, end) && ag.Valid() && 1 <= size <= 32 && Proper(x, p) && Codable(x, size)
      && var words := Words(x, p, ag, size); Laid(s, pos, words) && n == Total(words) && pos + n <= end
  {
    if fold > 0 {
      EncodedIs(s, end, x, p, pos, ag, size, n, fold - 1);
    }
  }

  lemma EncodedAlone(s: seq<Byte>, end: nat, x: seq<int>, p: Place, pos: nat, ag: Ag, size: nat, n: nat)
    requires Encoded(s, end, x, p, pos, ag, size, n) && ag.Valid() && Proper(x, p) && p.c < |x|
    requires !Due(x, AfterSample(x, p, ag))
    ensures SampleLies(s, end, x, p, pos, ag, size)
    ensures var w := SampleWord(x, p, ag, size);
      n >= w.length && Encoded(s, end, x, AfterSample(x, p, ag), pos + w.length, ag, size, n - w.length)
  {
    EncodedIs(s, end, x, p, pos, ag, size, n);
    var w, q := SampleWord(x, p, ag, size), AfterSample(x, p, ag);
    LaidFirst(s, pos, w, Words(x, q, ag, size));
    EncodedIs(s, end, x, q, pos + w.length, ag, size, n - w.length);
  }

  lemma EncodedWithRun(s: seq<Byte>, end: nat, x: seq<int>, p: Place, pos: nat, q: Place, ag: Ag, size: nat, n: nat)
    requires Encoded(s, end, x, p, pos, ag, size, n) && ag.Valid() && Proper(x, p) && p.c < |x|
    requires q == AfterSample(x, p, ag) && Due(x, q)
    ensures SampleLies(s, end, x, p, pos, ag, size)
    ensures var len, v := SampleWord(x, p, ag, size).length, RunWord(x, q, ag);
      && RunLies(s, end, x, q, pos + len, ag) && n >= len + v.length
      && Encoded(s, end, x, AfterZeroes(x, q), pos + len + v.length, ag, size, n - len - v.length)
  {
    EncodedIs(s, end, x, p, pos, ag, size, n);
    var w, v, r := SampleWord(x, p, ag, size), RunWord(x, q, ag), AfterZeroes(x, q);
    LaidFirst(s, pos, w, [v] + Words(x, r, ag, size));
    LaidFirst(s, pos + w.length, v, Words(x, r, ag, size));
    EncodedIs(s, end, x, r, pos + w.length + v.length, ag, size, n - w.length - v.length);
  }

  lemma EncodedEnd(s: seq<Byte>, end: nat, x: seq<int>, p: Place, pos: nat, ag: Ag, size: nat, n: nat)
    requires Readable(s, end) && ag.Valid() && 1 <= size <= 32 && Proper(x, p) && p.c == |x|
    requires Encoded(s, end, x, p, pos, ag, size, n)
    ensures Decomp(s, end, StateAt(x, p, pos), |x|, ag, size) == Result(true, x, pos + n)
  {
    EncodedIs(s, end, x, p, pos, ag, size, n);
    DecompTurn(s, end, StateAt(x, p, pos), |x|, ag, size);
    assert x[..p.c] == x;
  }

  /** A whole block: from a stream that holds the words of the samples, the decoder gives back exactly the
      samples, and stops where the words end. */
  lemma {:induction false} BlockDecodes(s: seq<Byte>, end: nat, x: seq<int>, p: Place, pos: nat, ag: Ag, size: nat, n: nat)
    requires Readable(s, end) && ag.Valid() && 1 <= size <= 32 && Proper(x, p)
    requires Encoded(s, end, x, p, pos, ag, size, n)
    ensures Decomp(s, end, StateAt(x, p, pos), |x|, ag, size) == Result(true, x, pos + n)
    decreases |x| - p.c
  {
    if p.c == |x| {
      EncodedEnd(s, end, x, p, pos, ag, size, n);
    } else {
      var q, len := AfterSample(x, p, ag), SampleWord(x, p, ag, size).length;
      if !Due(x, q) {
        EncodedAlone(s, end, x, p, pos, ag, size, n);
        TurnAlone(s, end, x, p, pos, ag, size);
        BlockDecodes(s, end, x, q, pos + len, ag, size, n - len);
      } else {
        var len' := len + RunWord(x, q, ag).length;
        EncodedWithRun(s, end, x, p, pos, q, ag, size, n);
        TurnWithRun(s, end, x, p, pos, q, pos + len, ag, size);
        BlockDecodes(s, end, x, AfterZeroes(x, q), pos + len', ag, size, n - len');
      }
    }
  }

  /** Decoding a block that this encoder wrote. */
  method DecodeBlock(s: seq<Byte>, startPos: nat, end: nat, pc: array<int>, ghost x: seq<int>, ag: Ag, size: nat)
      returns (ok: bool, c: nat, numBits: nat)
    requires Readable(s, end) && ag.Valid() && 1 <= size <= 32 && |x| == pc.Length && Codable(x, size)
    requires var words := Words(x, Place(0, ag.mb0, 0), ag, size);
      Laid(s, startPos, words) && startPos + Total(words) <= end
    modifies pc
    ensures ok && c == |x| && pc[..] == x && numBits == Total(Words(x, Place(0, ag.mb0, 0), ag, size))
  {
    ghost var n := Total(Words(x, Place(0, ag.mb0, 0), ag, size));
    EncodedIs(s, end, x, Place(0, ag.mb0, 0), startPos, ag, size, n);
    BlockDecodes(s, end, x, Place(0, ag.mb0, 0), startPos, ag, size, n);
    assert x[..0] == [];
    ok, c, numBits := Decode(s, startPos, end, pc, pc.Length, ag, size);
  }
}
