/** Body accounting: what lengths mean, and that a body arrives whole. */
module HttpBody {
  import opened Bytes
  import opened HttpParser
  import opened HttpRequest
  import opened HttpRun
  import opened HttpExecute
  import opened Folds

  type Step = (Outcome, Byte) -> Outcome

  lemma ChunkSizeStep(step: Step, room: nat, s: Outcome, c: Byte)
    requires Machine(step, room, 9) && s.Running?
    requires s.p.state.ChunkSizeStart? || s.p.state.ChunkSize?
    ensures step(s, c) == Result(s, c, OnChunkSize(s.p, c), room)
  {
    MachineIs(step, room, 9);
  }

  /** The bytes around a chunk's data. */
  lemma ChunkEdgeStep(step: Step, room: nat, s: Outcome, c: Byte)
    requires Machine(step, room, 9) && s.Running?
    ensures s.p.state.ChunkSizeAlmostDone? ==> step(s, c) == Result(s, c, OnChunkSizeDone(s.p), room)
    ensures s.p.state.ChunkDataAlmostDone? ==> step(s, c) == Result(s, c,
      Flushing(s.p.(state := ChunkDataDone), BodyData), room)
    ensures s.p.state.ChunkDataDone? ==> step(s, c) == Result(s, c, Resetting(s.p.(state := ChunkSizeStart)), room)
  {
    MachineIs(step, room, 9);
  }

  lemma TrailerStep(step: Step, room: nat, s: Outcome, c: Byte)
    requires Machine(step, room, 9) && s.Running?
    ensures s.p.state.FieldStart? ==> step(s, c) == Result(s, c, OnFieldStart(s.p, c), room)
    ensures s.p.state.HeadersAlmostDone? ==> step(s, c) == Result(s, c, OnHeadersAlmostDone(s.p), room)
  {
    MachineIs(step, room, 9);
  }

  /** The number a string of hexadecimal digits stands for. */
  function HexValue(d: seq<Byte>): nat
    requires Hex(d)
  {
    if d == [] then 0 else 16 * HexValue(d[..|d| - 1]) + Unhex(d[|d| - 1])
  }

  predicate Hex(d: seq<Byte>) {
    forall i :: 0 <= i < |d| ==> Unhex(d[i]) >= 0
  }

  /** The largest value that another hexadecimal digit may follow. */
  const HexRoom: nat := 0xFFF_FFFF_FFFF_FFFE

  lemma HexDigit(c: Byte)
    ensures Unhex(c) <= 15
    ensures Unhex(c) >= 0 ==> c != CR && !Among(c, "; ")
  {
  }

  /** One more digit after a size that has been read. */
  lemma HexSnoc(d: seq<Byte>, c: Byte)
    requires Hex(d) && Unhex(c) >= 0
    ensures Hex(d + [c]) && HexValue(d + [c]) == 16 * HexValue(d) + Unhex(c)
  {
    assert (d + [c])[..|d|] == d;
  }

  /** A chunk size is read as its value, and refused exactly when all digits but the last
      already exceed what a 64-bit length has room for. */
  lemma {:induction false} SizeRead(step: Step, room: nat, s: Outcome, d: seq<Byte>)
    requires Machine(step, room, 9) && s.Running? && s.p.state.ChunkSizeStart? && s.nread + |d| <= room
    requires Hex(d) && |d| >= 1
    ensures Fold(step, s, d) ==
            if HexValue(d[..|d| - 1]) <= HexRoom
            then Running(s.p.(state := ChunkSize, contentLength := HexValue(d)), s.nread + |d|, s.r, false)
            else Failed(InvalidContentLength)
    decreases |d|
  {
    if |d| == 1 {
      assert d == [d[0]] && d[..0] == [];
      FoldNext(step, s, d, 0);
      FoldNothing(step, s);
      assert d[..1] == d;
      HexDigit(d[0]);
      ChunkSizeStep(step, room, s, d[0]);
    } else {
      SizeRead(step, room, s, d[..|d| - 1]);
      SizeMore(step, room, s, d, d[..|d| - 1]);
    }
  }

  lemma SizeMore(step: Step, room: nat, s: Outcome, d: seq<Byte>, e: seq<Byte>)
    requires Machine(step, room, 9) && s.Running? && s.nread + |d| <= room
    requires Hex(d) && |d| >= 2 && e == d[..|d| - 1]
    requires Fold(step, s, e) ==
             if HexValue(e[..|e| - 1]) <= HexRoom
             then Running(s.p.(state := ChunkSize, contentLength := HexValue(e)), s.nread + |e|, s.r, false)
             else Failed(InvalidContentLength)
    ensures Fold(step, s, d) ==
            if HexValue(e) <= HexRoom
            then Running(s.p.(state := ChunkSize, contentLength := HexValue(d)), s.nread + |d|, s.r, false)
            else Failed(InvalidContentLength)
  {
    var n := |e|;
    var v, w, c := HexValue(e[..n - 1]), HexValue(e), d[n];
    assert w == 16 * v + Unhex(e[n - 1]) && HexValue(d) == 16 * w + Unhex(c);
    FoldNext(step, s, d, n);
    assert d[..n + 1] == d;
    SizeDigit(step, room, s, Fold(step, s, e), c, v, w, n);
  }

  /** One more digit, after n digits of value w of which the last brought the value up from v. */
  lemma SizeDigit(step: Step, room: nat, s: Outcome, t: Outcome, c: Byte, v: nat, w: nat, n: nat)
    requires Machine(step, room, 9) && s.Running? && s.nread + n + 1 <= room && Unhex(c) >= 0 && w >= 16 * v
    requires t == if v <= HexRoom then Running(s.p.(state := ChunkSize, contentLength := w), s.nread + n, s.r, false)
                  else Failed(InvalidContentLength)
    ensures step(t, c) ==
            if w <= HexRoom then Running(s.p.(state := ChunkSize, contentLength := 16 * w + Unhex(c)), s.nread + n
                + 1, s.r, false)
            else Failed(InvalidContentLength)
  {
    HexDigit(c);
    if v <= HexRoom {
      ChunkSizeStep(step, room, t, c);
      ChunkDigitExact(w, Unhex(c));
    } else {
      StuckStep(step, room, t, c);
    }
  }

  /** A chunk: the digits of its size, and its data. */
  datatype Chunk = Chunk(digits: seq<Byte>, data: seq<Byte>)

  predicate Proper(c: Chunk, room: nat) {
    && Hex(c.digits) && 1 <= |c.digits| && |c.digits| + 2 <= room
    && HexValue(c.digits) == |c.data| && HexValue(c.digits[..|c.digits| - 1]) <= HexRoom
  }

  const Eol: seq<Byte> := [CR, LF]

  function ChunkBytes(c: Chunk): seq<Byte> {
    c.digits + Eol + c.data + Eol
  }

  function ChunksBytes(cs: seq<Chunk>): seq<Byte> {
    if cs == [] then [] else ChunkBytes(cs[0]) + ChunksBytes(cs[1..])
  }

  function ChunksData(cs: seq<Chunk>): seq<Byte> {
    if cs == [] then [] else cs[0].data + ChunksData(cs[1..])
  }

  /** Two bytes in a row. */
  lemma FoldTwo(step: Step, s: Outcome, a: Byte, b: Byte)
    ensures Fold(step, s, [a, b]) == step(step(s, a), b)
  {
    assert [a, b][..1] == [a] && [a][..0] == [];
    FoldNothing(step, s);
  }

  /** A size line leads to the data, or after size zero to the trailer. */
  lemma SizeLine(step: Step, room: nat, s: Outcome, d: seq<Byte>)
    requires Machine(step, room, 9) && s.Running? && s.p.state.ChunkSizeStart? && s.nread == 0
    requires Hex(d) && |d| >= 1 && |d| + 2 <= room && HexValue(d[..|d| - 1]) <= HexRoom
    ensures Fold(step, s, d + Eol) ==
            var p := s.p.(contentLength := HexValue(d));
            if HexValue(d) == 0 then Running(p.(flags := p.flags.(trailing := true), state := FieldStart), 0, s.r, false)
            else Running(p.(state := ChunkData), 0, s.r, false)
  {
    SizeRead(step, room, s, d);
    var t := Fold(step, s, d);
    FoldAppend(step, s, d, Eol);
    FoldTwo(step, t, CR, LF);
    ChunkSizeStep(step, room, t, CR);
    ChunkEdgeStep(step, room, step(t, CR), LF);
  }

  /** A chunk delivers its data and leaves the parser ready for the next. */
  lemma OneChunk(step: Step, room: nat, s: Outcome, c: Chunk)
    requires Machine(step, room, 9) && s.Running? && s.p.state.ChunkSizeStart? && s.nread == 0
    requires Proper(c, room) && c.data != []
    ensures Fold(step, s, ChunkBytes(c)) == Running(s.p.(contentLength := 0), 0, BodyAdded(s.r, c.data), false)
  {
    SizeLine(step, room, s, c.digits);
    var t := Fold(step, s, c.digits + Eol);
    assert c.data[0..|c.data|] == c.data && c.data[..0] == [] && c.data[..|c.data|] == c.data;
    FoldNothing(step, t);
    BodyEnds(step, room, t, c.data, 0, |c.data|, t);
    var u := Fold(step, t, c.data);
    FoldTwo(step, u, CR, LF);
    ChunkEdgeStep(step, room, u, CR);
    ChunkEdgeStep(step, room, step(u, CR), LF);
    FoldAppend(step, s, c.digits + Eol, c.data);
    FoldAppend(step, s, c.digits + Eol + c.data, Eol);
  }

  lemma {:induction false} ManyChunks(step: Step, room: nat, s: Outcome, cs: seq<Chunk>)
    requires Machine(step, room, 9) && s.Running? && s.p.state.ChunkSizeStart? && s.nread == 0 && !s.scanned
    requires forall c :: c in cs ==> Proper(c, room) && c.data != []
    ensures var t := Fold(step, s, ChunksBytes(cs));
            t.Running? && t == Running(s.p.(contentLength := t.p.contentLength), 0, BodyAdded(s.r, ChunksData(cs)), false)
    decreases |cs|
  {
    if cs == [] {
      FoldNothing(step, s);
      assert s.r.data + [] == s.r.data;
    } else {
      OneChunk(step, room, s, cs[0]);
      var t := Fold(step, s, ChunkBytes(cs[0]));
      ManyChunks(step, room, t, cs[1..]);
      FoldAppend(step, s, ChunkBytes(cs[0]), ChunksBytes(cs[1..]));
      assert (s.r.data + cs[0].data) + ChunksData(cs[1..]) == s.r.data + (cs[0].data + ChunksData(cs[1..]));
    }
  }

  /** The last chunk and an empty trailer. */
  lemma LastChunk(step: Step, room: nat, s: Outcome, zero: seq<Byte>)
    requires Machine(step, room, 9) && s.Running? && s.p.state.ChunkSizeStart? && s.nread == 0 && !s.p.upgrade
    requires Hex(zero) && |zero| >= 1 && |zero| + 2 <= room && HexValue(zero) == 0
    ensures var t := Fold(step, s, zero + Eol + Eol);
            t.Running? && t.p.state.StartReq? && t.r == Completed(s.r, s.p.verb)
  {
    assert HexValue(zero) >= 16 * HexValue(zero[..|zero| - 1]);
    SizeLine(step, room, s, zero);
    var t := Fold(step, s, zero + Eol);
    FoldTwo(step, t, CR, LF);
    TrailerStep(step, room, t, CR);
    TrailerStep(step, room, step(t, CR), LF);
    FoldAppend(step, s, zero + Eol, Eol);
  }

  /** A chunked body of any number of chunks arrives as the concatenation of their data,
      and completes the request. */
  lemma ChunkedBody(room: nat, p: Parser, r: Contents, cs: seq<Chunk>, zero: seq<Byte>)
    requires p.state.ChunkSizeStart? && !p.upgrade
    requires forall c :: c in cs ==> Proper(c, room) && c.data != []
    requires Hex(zero) && |zero| >= 1 && |zero| + 2 <= room && HexValue(zero) == 0
    ensures var t := Run(Running(p, 0, r, false), ChunksBytes(cs) + (zero + Eol + Eol), room);
            t.Running? && t.p.state.StartReq? && t.r == Completed(BodyAdded(r, ChunksData(cs)), p.verb)
  {
    MachineMade(room, 9);
    ChunkedBodyRun(Stepper(room), room, p, r, cs, zero);
  }

  lemma ChunkedBodyRun(step: Step, room: nat, p: Parser, r: Contents, cs: seq<Chunk>, zero: seq<Byte>)
    requires Machine(step, room, 9) && p.state.ChunkSizeStart? && !p.upgrade
    requires forall c :: c in cs ==> Proper(c, room) && c.data != []
    requires Hex(zero) && |zero| >= 1 && |zero| + 2 <= room && HexValue(zero) == 0
    ensures var t := Fold(step, Running(p, 0, r, false), ChunksBytes(cs) + (zero + Eol + Eol));
            t.Running? && t.p.state.StartReq? && t.r == Completed(BodyAdded(r, ChunksData(cs)), p.verb)
  {
    var s := Running(p, 0, r, false);
    ManyChunks(step, room, s, cs);
    LastChunk(step, room, Fold(step, s, ChunksBytes(cs)), zero);
    FoldAppend(step, s, ChunksBytes(cs), zero + Eol + Eol);
  }

  // Content-Length

  predicate Decimal(d: seq<Byte>) {
    forall i :: 0 <= i < |d| ==> IsNum(d[i])
  }

  function DigitOf(c: Byte): nat {
    if IsNum(c) then c - '0' as int else 0
  }

  function DecimalValue(d: seq<Byte>): nat {
    if d == [] then 0 else 10 * DecimalValue(d[..|d| - 1]) + DigitOf(d[|d| - 1])
  }

  /** The largest value that another decimal digit may follow. */
  const DecimalRoom: nat := 1844674407370955160

  lemma DecimalDigit(p: Parser, c: Byte)
    requires IsNum(c) && p.state.Value? && p.headerState.ContentLengthNum?
    ensures OnValue(p, c) ==
            if p.contentLength <= DecimalRoom
            then Taking(p.(contentLength := 10 * p.contentLength + (c - '0' as int)), ValueData)
            else Fail(InvalidContentLength)
  {
    ContentDigitExact(p.contentLength, c - '0' as int);
  }

  /** The further digits of a Content-Length, after the first. */
  lemma {:induction false} LengthRead(step: Step, room: nat, s: Outcome, d: seq<Byte>, first: Byte)
    requires Machine(step, room, 9) && s.Running? && s.p.state.Value? && s.p.headerState.ContentLengthNum?
    requires s.nread + |d| <= room && IsNum(first) && Decimal(d)
    requires s.p.contentLength == DecimalValue([first])
    ensures var t := Fold(step, s, d);
            if d == [] || DecimalValue([first] + d[..|d| - 1]) <= DecimalRoom
            then t.Running? && t.p == s.p.(contentLength := DecimalValue([first] + d)) && t.nread == s.nread + |d|
            else t == Failed(InvalidContentLength)
    ensures d == [] || DecimalValue([first] + d[..|d| - 1]) <= DecimalRoom ==> DecimalValue([first] + d) < MaxLength
    decreases |d|
  {
    if d == [] {
      FoldNothing(step, s);
      assert [first] + d == [first] && [first][..0] == [];
    } else {
      var n := |d| - 1;
      var e := d[..n];
      var whole := [first] + d;
      assert whole[..|whole| - 1] == [first] + e && d[..n + 1] == d && whole[|whole| - 1] == d[n];
      assert IsNum(d[n]);
      LengthRead(step, room, s, e, first);
      FoldNext(step, s, d, n);
      var t := Fold(step, s, e);
      if t.Running? {
        ValueStep(step, room, t, d[n]);
        DecimalDigit(t.p, d[n]);
      } else {
        StuckStep(step, room, t, d[n]);
        var prefix := [first] + e;
        assert prefix[..|prefix| - 1] == [first] + e[..n - 1];
        assert DecimalValue(prefix) >= DecimalValue([first] + e[..n - 1]);
      }
    }
  }

  /** An identity body delivers exactly the declared number of bytes, and nothing is
      complete before the last of them. */
  lemma IdentityBody(room: nat, p: Parser, n: nat, r: Contents, data: seq<Byte>)
    requires p.state.BodyIdentity? && !p.upgrade && 1 <= |data| <= p.contentLength
    ensures var t := Run(Running(p, n, r, false), data, room);
            && t.Running? && t.r.data == r.data + data && |data| + t.p.contentLength == p.contentLength
            && (if |data| == p.contentLength then t.p.state.StartReq? && t.r == Completed(BodyAdded(r, data), p.verb)
                else t.p.state.BodyIdentity? && t.r == BodyAdded(r, data))
  {
    MachineMade(room, 9);
    IdentityBodyRun(Stepper(room), room, p, n, r, data);
  }

  lemma IdentityBodyRun(step: Step, room: nat, p: Parser, n: nat, r: Contents, data: seq<Byte>)
    requires Machine(step, room, 9) && p.state.BodyIdentity? && !p.upgrade && 1 <= |data| <= p.contentLength
    ensures var t := Fold(step, Running(p, n, r, false), data);
            && t.Running? && t.r.data == r.data + data && |data| + t.p.contentLength == p.contentLength
            && (if |data| == p.contentLength then t.p.state.StartReq? && t.r == Completed(BodyAdded(r, data), p.verb)
                else t.p.state.BodyIdentity? && t.r == BodyAdded(r, data))
  {
    var s := Running(p, n, r, false);
    FoldNothing(step, s);
    assert data[..0] == [] && data[0..|data|] == data && data[..|data|] == data;
    if |data| == p.contentLength {
      BodyEnds(step, room, s, data, 0, |data|, s);
    } else {
      BodyRuns(step, room, s, data, 0, |data|, s);
    }
  }
}
