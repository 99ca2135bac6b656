/** The http_parser object and http_parser_execute. */
module HttpConnection {
  import opened Bytes
  import opened HttpParser
  import opened HttpRequest
  import opened HttpRun
  import opened HttpExecute
  import opened HttpSync
  import opened Folds

  type Step = (Outcome, Byte) -> Outcome

  /** From byte i the parser has come to byte j, and on data whose last byte only some divisions check it does
      not stop at that byte once it has read the one before. */
  ghost predicate Passed(step: Step, start: Outcome, data: seq<Byte>, i: nat, j: nat, ok: bool) {
    OpensLast(step, start, data) && i < |data| - 1 ==> ok && (j < |data| - 1 || j == |data|)
  }

  class RequestParser {
    var parser: Parser
    var nread: nat
    var error: Option<Error>
    const request: Request

    /** What every call leaves behind, on every input, unless it failed. */
    ghost predicate Valid()
      reads this, request
    {
      error.None? ==>
        && nread <= MaxHeaderSize && Sound(parser) && (parser.state.ChunkSizeStart? ==> nread == 0)
        && Paired(request.Held()) && (Named(parser.state) ==> request.index < |request.headers|)
        && (forall k: Kind :: KindOf(parser.state) == Some(k) && k != BodyData ==> Settled(request.Held(), k))
    }

    /** http_request_init: a parser with its request */
    constructor ()
      ensures Valid() && fresh(request)
      ensures parser == Initial && nread == 0 && error.None? && request.Held() == Empty
    {
      request := new Request();
      parser, nread, error := Initial, 0, None;
    }

    /** COUNT_HEADER_SIZE */
    method CountHeaderSize(v: nat) returns (ok: bool)
      modifies this`nread, this`error
      ensures nread == old(nread) + v && ok == (nread <= MaxHeaderSize)
      ensures error == if ok then old(error) else Some(HeaderOverflow)
    {
      nread := nread + v;
      ok := nread <= MaxHeaderSize;
      if !ok {
        error := Some(HeaderOverflow);
      }
    }

    /** Carries out a move: the new fields, the callbacks, and the marks. */
    method Apply(data: seq<Byte>, i: nat, m: Marks, mv: Move, ghost n: int) returns (m': Marks)
      requires i < |data| && mv.Go? && Good(parser.state, data[i], mv)
      requires !parser.state.ChunkData? && !parser.state.BodyIdentity?
      requires Intact(parser, n, request.Held(), m, i)
      modifies this`parser, this`nread, request
      ensures parser == mv.next && nread == (if mv.reset then 0 else old(nread))
      ensures request.Held() == CalledBack(old(request.Held()), m, mv, data, i)
      ensures m' == Marked(Flushed(m, mv), mv, i)
    {
      m' := m;
      if mv.flush.Some? {
        var k := mv.flush.value;
        if At(m, k) >= 0 {
          request.On(k, data[At(m, k)..i]);
        }
        m' := Set(m, k, -1);
      }
      if mv.emptyValue {
        request.OnHeaderValue([]);
      }
      if mv.take.Some? && At(m', mv.take.value) < 0 {
        m' := Set(m', mv.take.value, i);
      }
      parser := mv.next;
      if mv.reset {
        nread := 0;
      }
      if mv.complete {
        request.OnMessageComplete(mv.next.verb);
      }
    }

    /** One move outside the inner loops, on a byte that has been counted. n is the count
        before this byte. */
    method Single(data: seq<Byte>, i: nat, m: Marks, mv: Move, ghost n: nat,
                  ghost step: Step, ghost room: nat, ghost start: Outcome, ghost over: nat)
      returns (m': Marks, ok: bool)
      requires Machine(step, room, 9) && i < |data| && Good(parser.state, data[i], mv)
      requires !parser.state.ChunkData? && !parser.state.BodyIdentity? && error.None?
      requires nread <= MaxHeaderSize && nread == if ParsingHeader(parser.state) then n + 1 else n
      requires Intact(parser, n, request.Held(), m, i)
      requires var s := Fold(step, start, data[..i]);
               && Synced(parser, n, request.Held(), m, data, i, s, over)
               && (s.Running? ==> step(s, data[i]) == Result(s, data[i], mv, room))
      requires !Scans(parser, data[i])
      modifies this, request
      ensures Passed(step, start, data, i, i + 1, ok)
      ensures ok ==> error.None? && nread <= MaxHeaderSize && Intact(parser, nread, request.Held(), m', i + 1)
      ensures ok ==> Synced(parser, nread, request.Held(), m', data, i + 1, Fold(step, start, data[..i + 1]), over)
      ensures !ok ==> StoppedAlike(Fold(step, start, data), error) && (error.None? ==> Valid())
    {
      ghost var s := Fold(step, start, data[..i]);
      FoldNext(step, start, data, i);
      if !s.Running? {
        StuckStep(step, room, s, data[i]);
      }
      ok := mv.Go?;
      m' := m;
      if mv.Fail? {
        error := Some(mv.error);
      } else {
        SingleIntact(parser, n, request.Held(), m, data, i, data[i], mv, if mv.reset then 0 else nread);
        if s.Running? && Covered(s.p, s.nread, data[i], mv, room) {
          SingleJoined(parser, n, request.Held(), m, data, i, mv);
        }
        m' := Apply(data, i, m, mv, n);
        ok := !mv.exit;
      }
      SinglePassed(data, i, mv, step, room, start);
      if !ok {
        Stuck(step, room, start, data, i + 1, |data|);
        assert data[..|data|] == data;
      }
    }

    /** A byte that the machine reads is no reason to stop. */
    lemma SinglePassed(data: seq<Byte>, i: nat, mv: Move, step: Step, room: nat, start: Outcome)
      requires Machine(step, room, 9) && i < |data|
      requires var s := Fold(step, start, data[..i]); s.Running? ==>
                 step(s, data[i]) == Result(s, data[i], mv, room) && !Scans(s.p, data[i])
      ensures Passed(step, start, data, i, i + 1, mv.Go? && !mv.exit)
    {
      if OpensLast(step, start, data) && i < |data| - 1 {
        OpensLastMeans(step, room, start, data);
        RunningBefore(step, room, start, data, i, |data| - 1);
        RunningBefore(step, room, start, data, i + 1, |data| - 1);
        FoldNext(step, start, data, i);
      }
    }

    /** s_header_field */
    method FieldSection(data: seq<Byte>, i: nat, m: Marks, ghost n: nat,
                        ghost step: Step, ghost room: nat, ghost start: Outcome, ghost over: nat)
      returns (j: nat, m': Marks, ok: bool)
      requires Machine(step, room, 9) && i < |data| && parser.state.Field? && error.None?
      requires room + over < MaxHeaderSize && nread == n + 1 <= MaxHeaderSize
      requires Intact(parser, n, request.Held(), m, i)
      requires Synced(parser, n, request.Held(), m, data, i, Fold(step, start, data[..i]), over)
      modifies this, request
      ensures Passed(step, start, data, i, j, ok)
      ensures ok ==> i < j <= |data| && error.None? && nread <= MaxHeaderSize && Intact(parser, nread, request.Held(), m', j)
      ensures ok ==> Synced(parser, nread, request.Held(), m', data, j, Fold(step, start, data[..j]),
                            if j == |data| then over + 1 else over)
      ensures !ok ==> StoppedAlike(Fold(step, start, data), error) && (error.None? ==> Valid())
    {
      ghost var s0 := Fold(step, start, data[..i]);
      LoopEntered(parser, n, request.Held(), m, FieldData, data, i, s0, over);
      var f, p := FieldLoop(parser, data, i, step, room, start);
      ghost var s := Fold(step, start, data[..p]);
      LoopJoined(parser, f, n, n + (p - i), request.Held(), m, FieldData, data, i, p, s0, s, over);
      FieldPassed(data, i, p, f, step, room, start);
      parser, j, m' := f, p, m;
      ok := CountHeaderSize(p - i);
      if !ok {
        Stuck(step, room, start, data, p, |data|);
        assert data[..|data|] == data;
      } else if p < |data| {
        var mv := OnField(f, data[p]);
        FieldGood(f, data[p]);
        if s.Running? {
          FieldStep(step, room, s, data[p]);
        }
        m', ok := Single(data, p, m, mv, n + (p - i), step, room, start, over);
        j := p + 1;
      }
    }

    lemma FieldPassed(data: seq<Byte>, i: nat, p: nat, f: Parser, step: Step, room: nat, start: Outcome)
      requires Machine(step, room, 9) && i <= p <= |data| && f.state.Field?
      requires var s := Fold(step, start, data[..p]); s.Running? ==> s.p == f
      requires i < p ==> InField(Fold(step, start, data[..p - 1]))
      ensures OpensLast(step, start, data) && i < |data| - 1 ==> p < |data| - 1 && Fold(step, start, data[..p]).Running?
    {
      if OpensLast(step, start, data) && i < |data| - 1 {
        OpensLastMeans(step, room, start, data);
        if p < |data| {
          RunningBefore(step, room, start, data, p, |data| - 1);
        }
      }
    }

    /** s_header_value. The source runs the callback at CR before it adds to the count;
        the order only shows in a parser that fails here. */
    method ValueSection(data: seq<Byte>, i: nat, m: Marks, ghost n: nat,
                        ghost step: Step, ghost room: nat, ghost start: Outcome, ghost over: nat)
      returns (j: nat, m': Marks, ok: bool)
      requires Machine(step, room, 9) && i < |data| && parser.state.Value? && error.None?
      requires room + over < MaxHeaderSize && nread == n + 1 <= MaxHeaderSize
      requires Intact(parser, n, request.Held(), m, i)
      requires Synced(parser, n, request.Held(), m, data, i, Fold(step, start, data[..i]), over)
      modifies this, request
      ensures OpensLast(step, start, data) && i == |data| - 1 ==> !ok && error == Some(InvalidHeaderToken)
      ensures Passed(step, start, data, i, j, ok)
      ensures ok ==> i < j <= |data| && error.None? && nread <= MaxHeaderSize && Intact(parser, nread, request.Held(), m', j)
      ensures ok ==> Synced(parser, nread, request.Held(), m', data, j, Fold(step, start, data[..j]),
                            if j == |data| then over + 1 else over)
      ensures !ok ==> StoppedAlike(Fold(step, start, data), error) && (error.None? ==> Valid())
    {
      ghost var s0 := Fold(step, start, data[..i]);
      LoopEntered(parser, n, request.Held(), m, ValueData, data, i, s0, over);
      var f, p, bad := ValueLoop(parser, data, i, step, room, start);
      j, m' := p, m;
      assert data[..|data|] == data;
      ValuePassed(data, i, p, bad, step, room, start);
      if bad.Some? {
        Stuck(step, room, start, data, p + 1, |data|);
        error, ok := bad, false;
        return;
      }
      ghost var s := Fold(step, start, data[..p]);
      LoopJoined(parser, f, n, n + (p - i), request.Held(), m, ValueData, data, i, p, s0, s, over);
      parser := f;
      ok := CountHeaderSize(p - i);
      if !ok {
        Stuck(step, room, start, data, p, |data|);
      } else if p < |data| {
        m', ok := ValueEnd(data, p, m, n + (p - i), step, room, start, over);
        j := p + 1;
      }
    }

    /** Where the loop over a value may be on data whose last byte only some divisions check. */
    lemma ValuePassed(data: seq<Byte>, i: nat, p: nat, bad: Option<Error>, step: Step, room: nat, start: Outcome)
      requires Machine(step, room, 9) && i <= p <= |data| && i < |data|
      requires bad.Some? ==> p < |data| && StoppedAlike(Fold(step, start, data[..p + 1]), bad)
      requires bad.None? && p < |data| ==> data[p] == CR || data[p] == LF
      requires bad.Some? && i < p ==> NotScanned(Fold(step, start, data[..p]))
      requires bad.None? && i < p ==> CountedTo(Fold(step, start, data[..i]), Fold(step, start, data[..p - 1]), p - 1 - i)
      ensures OpensLast(step, start, data) && i == |data| - 1 ==> !IsHeaderChar(data[i])
      ensures OpensLast(step, start, data) && i < |data| - 1 ==> bad.None? && (p < |data| - 1 || p == |data|)
      ensures OpensLast(step, start, data) && i < |data| - 1 && p < |data| ==> Fold(step, start, data[..p]).Running?
      ensures OpensLast(step, start, data) && i < |data| - 1 && p == |data| ==>
                Fold(step, start, data[..i]).Running? && Fold(step, start, data[..i]).nread + (p - i) <= room
    {
      if OpensLast(step, start, data) {
        OpensLastMeans(step, room, start, data);
        if i < |data| - 1 && p < |data| - 1 {
          RunningBefore(step, room, start, data, p, |data| - 1);
          RunningBefore(step, room, start, data, p + 1, |data| - 1);
        }
      }
    }

    /** The end of a value's line. */
    method ValueEnd(data: seq<Byte>, p: nat, m: Marks, ghost n: nat,
                    ghost step: Step, ghost room: nat, ghost start: Outcome, ghost over: nat)
      returns (m': Marks, ok: bool)
      requires Machine(step, room, 9) && p < |data| && (data[p] == CR || data[p] == LF)
      requires parser.state.Value? && error.None? && nread == n + 1 <= MaxHeaderSize
      requires Intact(parser, n, request.Held(), m, p)
      requires Synced(parser, n, request.Held(), m, data, p, Fold(step, start, data[..p]), over)
      modifies this, request
      ensures Passed(step, start, data, p, p + 1, ok)
      ensures ok ==> error.None? && nread <= MaxHeaderSize && Intact(parser, nread, request.Held(), m', p + 1)
      ensures ok ==> Synced(parser, nread, request.Held(), m', data, p + 1, Fold(step, start, data[..p + 1]), over)
      ensures !ok ==> StoppedAlike(Fold(step, start, data), error) && (error.None? ==> Valid())
    {
      ghost var s := Fold(step, start, data[..p]);
      var mv := OnValue(parser, data[p]);
      ValueGood(parser, data[p]);
      if s.Running? {
        ValueStep(step, room, s, data[p]);
      }
      m', ok := Single(data, p, m, mv, n, step, room, start, over);
    }

    /** s_body_identity and s_chunk_data: as much of the body as the buffer holds. */
    method BodySection(data: seq<Byte>, i: nat, m: Marks,
                       ghost step: Step, ghost room: nat, ghost start: Outcome, ghost over: nat)
      returns (j: nat, m': Marks, ok: bool)
      requires Machine(step, room, 9) && i < |data| && error.None? && nread <= MaxHeaderSize
      requires parser.state.ChunkData? || parser.state.BodyIdentity?
      requires Intact(parser, nread, request.Held(), m, i)
      requires Synced(parser, nread, request.Held(), m, data, i, Fold(step, start, data[..i]), over)
      modifies this, request
      ensures Passed(step, start, data, i, j, ok)
      ensures ok ==> i < j <= |data| && error.None? && Intact(parser, nread, request.Held(), m', j)
      ensures nread == old(nread)
      ensures ok ==> Synced(parser, nread, request.Held(), m', data, j, Fold(step, start, data[..j]), over)
      ensures !ok ==> StoppedAlike(Fold(step, start, data), error) && (error.None? ==> Valid())
    {
      ghost var f0, r0 := parser, request.Held();
      j, m', ok := BodyTake(data, i, m);
      ghost var toRead := j - i;
      BodyMoves(f0, nread, r0, data, i, toRead, m, step, room, start, over);
      BodyPassed(f0, data, i, toRead, step, room, start);
      BodyEndsWell(f0, nread, r0, data, i, toRead, m, step, start, over, parser, request.Held(), m', ok);
    }

    /** What one stretch of body makes of the fields f0, the request r0 and the marks m. */
    static ghost predicate Took(f0: Parser, r0: Contents, data: seq<Byte>, i: nat, j: nat, m: Marks,
                                f1: Parser, r1: Contents, m1: Marks, ok: bool)
      requires i <= j <= |data| && At(m, BodyData) <= i && j - i <= f0.contentLength
    {
      var f := f0.(contentLength := f0.contentLength - (j - i));
      var at := if At(m, BodyData) < 0 then m.(body := i) else m;
      if f.contentLength > 0 then f1 == f && r1 == r0 && m1 == at && ok
      else if f.state.ChunkData? then f1 == f.(state := ChunkDataAlmostDone) && r1 == r0 && m1 == at && ok
      else
        && f1 == f.(state := StartReq) && m1 == at.(body := -1) && ok == !f.upgrade
        && r1 == Completed(BodyAdded(r0, data[At(at, BodyData)..j]), f.verb)
    }

    static lemma BodyEndsWell(f0: Parser, n: nat, r0: Contents, data: seq<Byte>, i: nat, toRead: nat, m: Marks,
                              step: Step, start: Outcome, over: nat, f1: Parser, r1: Contents, m1: Marks, ok: bool)
      requires 1 <= toRead <= f0.contentLength && i + toRead <= |data| && Intact(f0, n, r0, m, i)
      requires f0.state.ChunkData? || f0.state.BodyIdentity?
      requires BodyMoved(f0, n, r0, data, i, toRead, m, step, start, over)
      requires Took(f0, r0, data, i, i + toRead, m, f1, r1, m1, ok)
      ensures ok ==> Intact(f1, n, r1, m1, i + toRead)
      ensures ok ==> Synced(f1, n, r1, m1, data, i + toRead, Fold(step, start, data[..i + toRead]), over)
      ensures !ok ==> !Fold(step, start, data).Running? && !Fold(step, start, data).Failed?
      ensures !ok ==> Sound(f1) && f1.state.StartReq? && Paired(r1)
    {
    }

    /** The fields, marks and callbacks of a stretch of body. */
    method BodyTake(data: seq<Byte>, i: nat, m: Marks) returns (j: nat, m': Marks, ok: bool)
      requires i < |data| && Sound(parser) && Paired(request.Held()) && At(m, BodyData) <= i
      requires parser.state.ChunkData? || parser.state.BodyIdentity?
      modifies this`parser, request
      ensures i < j <= |data| && j - i <= old(parser).contentLength
      ensures Took(old(parser), old(request.Held()), data, i, j, m, parser, request.Held(), m', ok)
      ensures j == |data| || j - i == old(parser).contentLength
    {
      assert parser.contentLength != 0 && parser.contentLength != MaxLength;
      assert parser.state.ChunkData? ==> parser.flags.chunked;
      var toRead := |data| - i;
      if parser.contentLength < toRead {
        toRead := parser.contentLength;
      }
      j, ok := i + toRead, true;
      m' := if At(m, BodyData) < 0 then m.(body := i) else m;
      parser := parser.(contentLength := parser.contentLength - toRead);
      if parser.contentLength == 0 {
        if parser.state.ChunkData? {
          parser := parser.(state := ChunkDataAlmostDone);
        } else {
          m', ok := BodyDone(data, j, m');
        }
      }
    }

    /** The parser's state after a stretch of body agrees with the machine's. */
    static ghost predicate BodyMoved(f0: Parser, n: nat, r0: Contents, data: seq<Byte>, i: nat, toRead: nat, m: Marks,
                                     step: Step, start: Outcome, over: nat)
      requires 1 <= toRead <= f0.contentLength && i + toRead <= |data| && Intact(f0, n, r0, m, i)
      requires f0.state.ChunkData? || f0.state.BodyIdentity?
    {
      var j, f := i + toRead, f0.(contentLength := f0.contentLength - toRead);
      var s', m' := Fold(step, start, data[..j]), if At(m, BodyData) < 0 then m.(body := i) else m;
      if f.contentLength > 0 then
        Intact(f, n, r0, m', j) && Synced(f, n, r0, m', data, j, s', over)
      else if f.state.ChunkData? then
        var t := f.(state := ChunkDataAlmostDone); Intact(t, n, r0, m', j) && Synced(t, n, r0, m', data, j, s', over)
      else if f.upgrade then !Fold(step, start, data).Running? && !Fold(step, start, data).Failed?
      else
        var t, r' := f.(state := StartReq), Completed(BodyAdded(r0, data[At(m', BodyData)..j]), f.verb);
        Intact(t, n, r', m'.(body := -1), j) && Synced(t, n, r', m'.(body := -1), data, j, s', over)
    }

    /** Where the machine goes over the same bytes. */
    static lemma BodyMoves(f0: Parser, n: nat, r0: Contents, data: seq<Byte>, i: nat, toRead: nat, m: Marks,
                           step: Step, room: nat, start: Outcome, over: nat)
      requires Machine(step, room, 9) && 1 <= toRead <= f0.contentLength && i + toRead <= |data|
      requires f0.state.ChunkData? || f0.state.BodyIdentity?
      requires Intact(f0, n, r0, m, i)
      requires Synced(f0, n, r0, m, data, i, Fold(step, start, data[..i]), over)
      ensures BodyMoved(f0, n, r0, data, i, toRead, m, step, start, over)
    {
      assert At(m, BodyData) == m.body;
      var s, j, f := Fold(step, start, data[..i]), i + toRead, f0.(contentLength := f0.contentLength - toRead);
      var s' := Fold(step, start, data[..j]);
      if !s.Running? {
        Stuck(step, room, start, data, i, j);
      } else if toRead < f0.contentLength {
        BodyRuns(step, room, start, data, i, toRead, s);
      } else {
        BodyEnds(step, room, start, data, i, toRead, s);
      }
      if f.contentLength > 0 {
        BodyPart(f0, f, n, r0, m, data, i, j, s, s', over);
      } else if f0.state.ChunkData? {
        BodyPart(f0, f.(state := ChunkDataAlmostDone), n, r0, m, data, i, j, s, s', over);
      } else if !f0.upgrade {
        BodyWhole(f0, n, r0, m, data, i, j, s, s', over);
      } else {
        Stuck(step, room, start, data, j, |data|);
        assert data[..|data|] == data;
      }
    }

    static lemma BodyPassed(f0: Parser, data: seq<Byte>, i: nat, toRead: nat, step: Step, room: nat, start: Outcome)
      requires Machine(step, room, 9) && 1 <= toRead <= f0.contentLength && i + toRead <= |data|
      requires f0.state.ChunkData? || f0.state.BodyIdentity?
      requires var s := Fold(step, start, data[..i]); s.Running? ==> s.p == f0
      ensures OpensLast(step, start, data) && i < |data| - 1 ==>
                i + toRead < |data| - 1 && (toRead == f0.contentLength && !f0.state.ChunkData? ==> !f0.upgrade)
    {
      if OpensLast(step, start, data) && i < |data| - 1 {
        var s, j, last := Fold(step, start, data[..i]), i + toRead, |data| - 1;
        OpensLastMeans(step, room, start, data);
        RunningBefore(step, room, start, data, i, last);
        if j == |data| {
          BodyRuns(step, room, start, data, i, toRead - 1, s);
        } else {
          RunningBefore(step, room, start, data, j, last);
          if toRead < f0.contentLength {
            BodyRuns(step, room, start, data, i, toRead, s);
          } else {
            BodyEnds(step, room, start, data, i, toRead, s);
          }
        }
      }
    }

    /** The end of an identity body, through s_message_done. */
    method BodyDone(data: seq<Byte>, j: nat, m: Marks) returns (m': Marks, ok: bool)
      requires j <= |data| && 0 <= m.body <= j && Paired(request.Held())
      modifies this`parser, request
      ensures parser == old(parser).(state := StartReq)
      ensures request.Held() == Completed(BodyAdded(old(request.Held()), data[m.body..j]), parser.verb)
      ensures m' == m.(body := -1) && ok == !parser.upgrade
    {
      request.OnBody(data[m.body..j]);
      m' := m.(body := -1);
      parser := parser.(state := StartReq);
      request.OnMessageComplete(parser.verb);
      ok := !parser.upgrade;
    }

    /** One turn of the byte loop. */
    method Turn(data: seq<Byte>, i: nat, m: Marks,
                ghost step: Step, ghost room: nat, ghost start: Outcome, ghost over: nat)
      returns (j: nat, m': Marks, ok: bool)
      requires Machine(step, room, 9) && i < |data| && error.None?
      requires room + over < MaxHeaderSize && nread <= MaxHeaderSize
      requires Intact(parser, nread, request.Held(), m, i)
      requires Synced(parser, nread, request.Held(), m, data, i, Fold(step, start, data[..i]), over)
      modifies this, request
      ensures OpensLast(step, start, data) && i == |data| - 1 ==> !ok && error == Some(InvalidHeaderToken)
      ensures Passed(step, start, data, i, j, ok)
      ensures ok ==> i < j <= |data| && error.None? && nread <= MaxHeaderSize && Intact(parser, nread, request.Held(), m', j)
      ensures ok ==> Synced(parser, nread, request.Held(), m', data, j, Fold(step, start, data[..j]),
                            if j == |data| then over + 1 else over)
      ensures !ok ==> StoppedAlike(Fold(step, start, data), error) && (error.None? ==> Valid())
    {
      ghost var n := nread;
      ok := true;
      if ParsingHeader(parser.state) {
        ok := CountHeaderSize(1);
        if !ok {
          HeaderOverflows(data, i, step, room, start);
          j, m', ok := i, m, false;
          return;
        }
      }
      assert parser.state.ChunkSizeStart? ==> nread == 1;
      assert InChunks(parser.state) ==> parser.flags.chunked;
      j, m', ok := Switch(data, i, m, n, step, room, start, over);
    }

    /** The switch over the states, on a byte that has been counted. */
    method Switch(data: seq<Byte>, i: nat, m: Marks, ghost n: nat,
                  ghost step: Step, ghost room: nat, ghost start: Outcome, ghost over: nat)
      returns (j: nat, m': Marks, ok: bool)
      requires Machine(step, room, 9) && i < |data| && error.None?
      requires room + over < MaxHeaderSize && nread <= MaxHeaderSize
      requires nread == if ParsingHeader(parser.state) then n + 1 else n
      requires Intact(parser, n, request.Held(), m, i)
      requires Synced(parser, n, request.Held(), m, data, i, Fold(step, start, data[..i]), over)
      modifies this, request
      ensures OpensLast(step, start, data) && i == |data| - 1 ==> !ok && error == Some(InvalidHeaderToken)
      ensures Passed(step, start, data, i, j, ok)
      ensures ok ==> i < j <= |data| && error.None? && nread <= MaxHeaderSize && Intact(parser, nread, request.Held(), m', j)
      ensures ok ==> Synced(parser, nread, request.Held(), m', data, j, Fold(step, start, data[..j]),
                            if j == |data| then over + 1 else over)
      ensures !ok ==> StoppedAlike(Fold(step, start, data), error) && (error.None? ==> Valid())
    {
      if OpensLast(step, start, data) && i == |data| - 1 {
        OpensLastMeans(step, room, start, data);
      }
      if parser.state.Field? {
        j, m', ok := FieldSection(data, i, m, n, step, room, start, over);
      } else if parser.state.Value? {
        j, m', ok := ValueSection(data, i, m, n, step, room, start, over);
      } else if parser.state.ChunkData? || parser.state.BodyIdentity? {
        j, m', ok := BodySection(data, i, m, step, room, start, over);
      } else {
        m', ok := Other(data, i, m, n, step, room, start, over);
        j := i + 1;
      }
    }

    /** A state without an inner loop. */
    method Other(data: seq<Byte>, i: nat, m: Marks, ghost n: nat,
                 ghost step: Step, ghost room: nat, ghost start: Outcome, ghost over: nat)
      returns (m': Marks, ok: bool)
      requires Machine(step, room, 9) && i < |data| && error.None?
      requires !parser.state.ChunkData? && !parser.state.BodyIdentity? && !parser.state.Value?
      requires nread <= MaxHeaderSize && nread == if ParsingHeader(parser.state) then n + 1 else n
      requires Intact(parser, n, request.Held(), m, i)
      requires Synced(parser, n, request.Held(), m, data, i, Fold(step, start, data[..i]), over)
      modifies this, request
      ensures Passed(step, start, data, i, i + 1, ok)
      ensures ok ==> error.None? && nread <= MaxHeaderSize && Intact(parser, nread, request.Held(), m', i + 1)
      ensures ok ==> Synced(parser, nread, request.Held(), m', data, i + 1, Fold(step, start, data[..i + 1]), over)
      ensures !ok ==> StoppedAlike(Fold(step, start, data), error) && (error.None? ==> Valid())
    {
      var mv := Transition(parser, data[i], step, room, Fold(step, start, data[..i]));
      m', ok := Single(data, i, m, mv, n, step, room, start, over);
    }

    /** A header byte over the limit is beyond the machine's room as well. */
    lemma HeaderOverflows(data: seq<Byte>, i: nat, step: Step, room: nat, start: Outcome)
      requires Machine(step, room, 9) && i < |data|
      requires var s := Fold(step, start, data[..i]);
               !s.Failed? && (s.Running? ==> ParsingHeader(s.p.state) && s.nread >= room)
      ensures var t := Fold(step, start, data); !t.Running? && !t.Failed? && !OpensLast(step, start, data)
    {
      var s := Fold(step, start, data[..i]);
      assert data[..|data|] == data;
      if OpensLast(step, start, data) {
        RunningBefore(step, room, start, data, i, |data| - 1);
      }
      if s.Running? {
        FoldNext(step, start, data, i);
        TooLong(step, room, s, data[i]);
        Stuck(step, room, start, data, i + 1, |data|);
      } else {
        Stuck(step, room, start, data, i, |data|);
      }
    }

    /** The byte loop. */
    method Loop(data: seq<Byte>, m0: Marks, ghost step: Step, ghost room: nat, ghost start: Outcome, ghost over: nat)
      returns (m: Marks, ok: bool)
      requires Machine(step, room, 9) && error.None? && |data| > 0
      requires room + over < MaxHeaderSize && nread <= MaxHeaderSize
      requires Intact(parser, nread, request.Held(), m0, 0)
      requires Synced(parser, nread, request.Held(), m0, data, 0, start, over)
      modifies this, request
      ensures OpensLast(step, start, data) ==> (ok <==> |data| > 1)
      ensures OpensLast(step, start, data) && |data| == 1 ==> error == Some(InvalidHeaderToken)
      ensures ok ==> error.None? && Intact(parser, nread, request.Held(), m, |data|) && nread <= MaxHeaderSize
      ensures ok ==> Synced(parser, nread, request.Held(), m, data, |data|, Fold(step, start, data), over + 1)
      ensures !ok ==> StoppedAlike(Fold(step, start, data), error) && (error.None? ==> Valid())
    {
      var p := 0;
      m, ok := m0, true;
      assert data[..0] == [];
      FoldNothing(step, start);
      while p < |data|
        invariant 0 <= p <= |data| && error.None? && nread <= MaxHeaderSize
        invariant Intact(parser, nread, request.Held(), m, p)
        invariant Synced(parser, nread, request.Held(), m, data, p, Fold(step, start, data[..p]),
                         if p == |data| then over + 1 else over)
        invariant ok && (OpensLast(step, start, data) && |data| > 1 ==> p < |data| - 1 || p == |data|)
        invariant OpensLast(step, start, data) && |data| == 1 ==> p == 0
      {
        p, m, ok := Turn(data, p, m, step, room, start, over);
        if !ok {
          return;
        }
      }
      assert data[..|data|] == data;
    }

    /** The callbacks for fragments that the buffer ended in. */
    method FlushAll(data: seq<Byte>, m: Marks)
      requires Intact(parser, nread, request.Held(), m, |data|) && error.None? && nread <= MaxHeaderSize
      modifies request
      ensures request.Held() == Joined(old(request.Held()), m, KindOf(parser.state), data, |data|)
      ensures Valid()
    {
      ghost var r := request.Held();
      assert forall j: Kind, k: Kind :: At(m, j) >= 0 && At(m, k) >= 0 ==> j == k;
      ghost var kind := KindOf(parser.state);
      if kind.Some? && At(m, kind.value) >= 0 {
        DeliverSettles(r, kind.value, data[At(m, kind.value)..]);
        assert data[At(m, kind.value)..|data|] == data[At(m, kind.value)..];
      }
      if At(m, FieldData) >= 0 {
        request.OnHeaderField(data[m.field..]);
      }
      if At(m, ValueData) >= 0 {
        request.OnHeaderValue(data[m.value..]);
      }
      if At(m, UrlData) >= 0 {
        request.OnUrl(data[m.url..]);
      }
      if At(m, BodyData) >= 0 {
        request.OnBody(data[m.body..]);
      }
    }

    /** The marks a call starts with. */
    method StartMarks() returns (m: Marks)
      ensures m == if KindOf(parser.state).Some? && KindOf(parser.state) != Some(BodyData)
                   then Set(NoMarks, KindOf(parser.state).value, 0) else NoMarks
    {
      m := NoMarks;
      var k := KindOf(parser.state);
      if k.Some? && k != Some(BodyData) {
        m := Set(m, k.value, 0);
      }
    }

    lemma StartSynced(data: seq<Byte>, m: Marks, start: Outcome, over: nat)
      requires Valid() && error.None?
      requires m == if KindOf(parser.state).Some? && KindOf(parser.state) != Some(BodyData)
                    then Set(NoMarks, KindOf(parser.state).value, 0) else NoMarks
      requires !start.Failed?
      requires start.Running? ==> start.p == parser && start.nread <= nread <= start.nread + over && start.r == request.Held()
      ensures Intact(parser, nread, request.Held(), m, 0)
      ensures Synced(parser, nread, request.Held(), m, data, 0, start, over)
    {
      assert forall k: Kind :: At(NoMarks, k) == -1;
      assert data[0..0] == [];
    }

    /** The fields, the error and the request are what the machine says; the count of
        header bytes is ahead by at most `over`. */
    ghost predicate Agrees(t: Outcome, over: nat)
      reads this, request
    {
      match t
      case Running(p, n, r, _) => error.None? && parser == p && n <= nread <= n + over && request.Held() == r
      case Failed(e) => error == Some(e)
      case Open => true
      case Outside => true
    }

    /** http_parser_execute on a nonempty buffer, against a folded machine. */
    method Consume(data: seq<Byte>, ghost step: Step, ghost room: nat, ghost start: Outcome, ghost over: nat)
      requires Valid() && error.None? && |data| > 0 && Machine(step, room, 9)
      requires room + over < MaxHeaderSize && !start.Failed? && Agrees(start, over)
      modifies this, request
      ensures Valid() && Agrees(Fold(step, start, data), over + 1)
      ensures OpensLast(step, start, data) ==> error == if |data| == 1 then Some(InvalidHeaderToken) else None
    {
      var m := StartMarks();
      StartSynced(data, m, start, over);
      var ok: bool;
      m, ok := Loop(data, m, step, room, start, over);
      if ok {
        FlushAll(data, m);
      }
    }

    /** http_request_add_data: http_parser_execute on what has arrived. After a failure
        nothing happens; an empty buffer is an error inside a message. Otherwise the
        call does what the byte-at-a-time machine does. */
    method AddData(data: seq<Byte>, ghost room: nat, ghost start: Outcome, ghost over: nat)
      requires Valid() && room + over < MaxHeaderSize && Agrees(start, over)
      modifies this, request
      ensures Valid() && (data != [] ==> Agrees(Run(start, data, room), over + 1))
      ensures OpensLast(Stepper(room), start, data) && start.Running? ==>
                error == if |data| == 1 then Some(InvalidHeaderToken) else None
      ensures data == [] && old(error).None? ==>
                error == (if old(parser).state.StartReq? then None else Some(InvalidEofState))
      ensures data == [] || old(error).Some? ==> parser == old(parser) && request.Held() == old(request.Held())
    {
      ghost var step := Stepper(room);
      MachineMade(room, 9);
      if error.Some? {
        Stopped(step, room, start, data);
      } else if |data| == 0 {
        if !parser.state.StartReq? {
          error := Some(InvalidEofState);
        }
      } else {
        Consume(data, step, room, start, over);
      }
    }

    lemma Stopped(step: Step, room: nat, start: Outcome, data: seq<Byte>)
      requires Machine(step, room, 9) && !start.Running?
      ensures Fold(step, start, data) == start
    {
      assert data[..0] == [] && data[..|data|] == data;
      FoldNothing(step, start);
      Stuck(step, room, start, data, 0, |data|);
    }

    /** Split invariance: a request delivered in nonempty pieces, however divided, leaves
        what its whole bytes mean. */
    method AddPieces(pieces: seq<seq<Byte>>)
      requires parser == Initial && nread == 0 && error.None? && request.Held() == Empty && Valid()
      requires forall i :: 0 <= i < |pieces| ==> pieces[i] != []
      modifies this, request
      ensures Valid()
      ensures |pieces| < MaxHeaderSize ==>
                Agrees(Run(Running(Initial, 0, Empty, false), Joint(pieces), MaxHeaderSize - 1 - |pieces|), |pieces|)
    {
      var i := 0;
      ghost var start, count := Running(Initial, 0, Empty, false), |pieces|;
      ghost var room: nat := if count < MaxHeaderSize then MaxHeaderSize - 1 - count else 0;
      FoldNothing(Stepper(room), start);
      while i < |pieces|
        invariant 0 <= i <= |pieces| && Valid()
        invariant count < MaxHeaderSize ==> Agrees(Run(start, Joint(pieces[..i]), room), i)
      {
        ghost var before := Run(start, Joint(pieces[..i]), room);
        assert pieces[..i + 1] == pieces[..i] + [pieces[i]];
        JointSnoc(pieces[..i], pieces[i]);
        FoldAppend(Stepper(room), start, Joint(pieces[..i]), pieces[i]);
        if count >= MaxHeaderSize {
          before := Outside;
        }
        AddData(pieces[i], room, before, if count < MaxHeaderSize then i else 0);
        i := i + 1;
      }
      assert pieces[..i] == pieces;
    }
  }

  /** The pieces put together. */
  function Joint(pieces: seq<seq<Byte>>): seq<Byte> {
    if pieces == [] then [] else pieces[0] + Joint(pieces[1..])
  }

  lemma {:induction false} JointSnoc(pieces: seq<seq<Byte>>, last: seq<Byte>)
    ensures Joint(pieces + [last]) == Joint(pieces) + last
  {
    if pieces == [] {
      assert [last][1..] == [];
      assert Joint([last]) == last + [];
    } else {
      JointSnoc(pieces[1..], last);
      assert (pieces + [last])[1..] == pieces[1..] + [last];
    }
  }
}
