/** The meaning of a request's bytes, independent of how they arrive: one byte at a
    time, every data byte delivered at once. Also what every reachable parser state
    satisfies. */
module HttpRun {
  import opened Bytes
  import opened HttpParser
  import opened HttpRequest
  import opened Folds

  /** `nread` counts header bytes, and `scanned` says that the last byte was one that the
      search for the end of a value runs over. Open: a byte that is no header character
      comes right behind such a byte, where only a buffer that starts with it checks it.
      Outside: a value that starts with a zero byte, a header that comes within `room` of
      the size limit, or a switch to another protocol. */
  datatype Outcome =
    | Running(p: Parser, nread: nat, r: Contents, scanned: bool)
    | Failed(error: Error)
    | Open
    | Outside

  /** The effect of one byte on the request. */
  function Effect(r: Contents, mv: Move, c: Byte): Contents
    requires mv.Go?
  {
    var r1 := if mv.emptyValue then Deliver(r, ValueData, []) else r;
    var r2 := if mv.take.Some? then Deliver(r1, mv.take.value, [c]) else r1;
    if mv.complete then Completed(r2, mv.next.verb) else r2
  }

  predicate HasRoom(p: Parser, nread: nat, room: nat) {
    ParsingHeader(p.state) ==> nread < room
  }

  predicate Covered(p: Parser, nread: nat, c: Byte, mv: Move, room: nat) {
    && HasRoom(p, nread, room)
    && (mv.Go? ==> !mv.exit && (mv.take == Some(ValueData) ==> c != 0))
  }

  /** The search for the end of a value runs over this byte. */
  predicate Scans(p: Parser, c: Byte) {
    p.state.Value? && p.headerState.General? && c != CR && c != LF
  }

  /** Whether this byte is checked depends on where a buffer starts. */
  predicate Unchecked(s: Outcome, c: Byte) {
    s.Running? && s.scanned && s.p.state.Value? && s.p.headerState.General? && !IsHeaderChar(c)
  }

  function Count(p: Parser, nread: nat, mv: Move): nat
    requires mv.Go?
  {
    if mv.reset then 0 else if ParsingHeader(p.state) then nread + 1 else nread
  }

  /** Where one byte leads when the parser's move on it is mv. */
  function Result(s: Outcome, c: Byte, mv: Move, room: nat): Outcome
    requires s.Running?
  {
    if HasRoom(s.p, s.nread, room) && Unchecked(s, c) then Open
    else if !Covered(s.p, s.nread, c, mv, room) then Outside
    else if mv.Fail? then Failed(mv.error)
    else Running(mv.next, Count(s.p, s.nread, mv), Effect(s.r, mv, c), Scans(s.p, c))
  }

  function Step(s: Outcome, c: Byte, room: nat): Outcome {
    if s.Running? then Result(s, c, Next(s.p, c), room) else s
  }

  function Stepper(room: nat): (Outcome, Byte) -> Outcome {
    (s: Outcome, c: Byte) => Step(s, c, room)
  }

  function Run(s: Outcome, bytes: seq<Byte>, room: nat): Outcome {
    Fold(Stepper(room), s, bytes)
  }

  // Reachable states

  predicate FieldHeaderState(h: HeaderState) {
    h.General? || h.C? || h.CO? || h.CON? || h.MatchingConnection? || h.MatchingProxyConnection?
    || h.MatchingContentLength? || h.MatchingTransferEncoding? || h.MatchingUpgrade?
    || h.Connection? || h.ContentLength? || h.TransferEncoding? || h.Upgrade?
  }

  predicate InChunks(s: State) {
    s.ChunkSizeStart? || s.ChunkSize? || s.ChunkParameters? || s.ChunkSizeAlmostDone?
    || s.ChunkData? || s.ChunkDataAlmostDone? || s.ChunkDataDone?
  }

  /** States in which the parser never waits for a byte. */
  predicate Passing(s: State) {
    s.Dead? || s.ValueStart? || s.HeadersDone? || s.MessageDone?
  }

  /** The invariant behind the assertions of http_parser_execute. An accepted length
      stays below the sentinel. */
  predicate Sound(p: Parser) {
    && !Passing(p.state)
    && p.contentLength <= MaxLength
    && (p.flags.contentLength ==> p.contentLength < MaxLength)
    && (p.state.Field? ==> FieldHeaderState(p.headerState))
    && (p.state.Value? ==> !p.headerState.Connection? && !p.headerState.TransferEncoding? && !p.headerState.ContentLength?)
    && (p.state.Value? && p.headerState.ContentLengthNum? ==> p.flags.contentLength)
    && (InChunks(p.state) ==> p.flags.chunked)
    && (InChunks(p.state) && !p.state.ChunkSizeStart? ==> p.contentLength < MaxLength)
    && (p.state.ChunkData? || p.state.BodyIdentity? ==> 0 < p.contentLength < MaxLength)
    && (p.state.ChunkDataAlmostDone? ==> p.contentLength == 0)
  }

  /** The count is cleared before each chunk size. */
  predicate Fresh(mv: Move)
    requires mv.Go?
  {
    mv.next.state.ChunkSizeStart? ==> mv.reset
  }

  lemma InitialSound()
    ensures Sound(Initial)
  {
  }

  /** The digits are accepted exactly when the length stays clear of wrapping. */
  lemma ContentDigitExact(length: nat, digit: nat)
    requires digit <= 9
    ensures ContentDigit(length, digit) ==
            if length <= 1844674407370955160 then Some(length * 10 + digit) else None
    ensures ContentDigit(length, digit).Some? ==> length * 10 + digit < MaxLength
  {
  }

  lemma ChunkDigitExact(length: nat, digit: nat)
    requires digit <= 15
    ensures ChunkDigit(length, digit) ==
            if length <= 0xFFF_FFFF_FFFF_FFFE then Some(length * 16 + digit) else None
    ensures ChunkDigit(length, digit).Some? ==> length * 16 + digit < MaxLength
  {
  }

  // How a byte moves between the kinds of data

  /** The data a state is in the middle of. */
  function KindOf(s: State): Option<Kind> {
    if InUrl(s) then Some(UrlData)
    else if s.Field? then Some(FieldData)
    else if s.Value? then Some(ValueData)
    else if s.ChunkData? || s.ChunkDataAlmostDone? || s.BodyIdentity? then Some(BodyData)
    else None
  }

  /** States after a header name, in which a value may be reported. */
  predicate Named(s: State) {
    s.DiscardWs? || s.DiscardWsAlmostDone? || s.DiscardLws? || s.ValueStart? || s.Value? || s.ValueLws?
    || s.HeaderAlmostDone?
  }

  /** Inside a kind of data, a byte either continues it or ends it. */
  predicate InsideShape(k: Kind, mv: Move)
    requires mv.Go?
  {
    && !mv.emptyValue && !mv.complete && !mv.exit
    && (if KindOf(mv.next.state) == Some(k) then mv.flush.None? && mv.take == Some(k) && k != BodyData
        else mv.flush == Some(k) && mv.take.None? && KindOf(mv.next.state).None?)
  }

  /** Outside, it starts at most one kind, and a body only with the next byte. */
  predicate OutsideShape(mv: Move)
    requires mv.Go?
  {
    && mv.flush.None?
    && (mv.complete ==> KindOf(mv.next.state).None?)
    && (mv.exit ==> mv.complete)
    && (if mv.take.Some? then mv.take == KindOf(mv.next.state) && mv.take != Some(BodyData)
        else KindOf(mv.next.state).None? || KindOf(mv.next.state) == Some(BodyData))
  }

  predicate Shape(s: State, mv: Move)
    requires mv.Go?
  {
    && (if KindOf(s).Some? then InsideShape(KindOf(s).value, mv) else OutsideShape(mv))
    && (Named(mv.next.state) ==> Named(s) || mv.flush == Some(FieldData))
    && (mv.emptyValue ==> Named(s))
  }

  /** No byte of a url or header name that is taken is zero. */
  predicate TextTaken(mv: Move, c: Byte)
    requires mv.Go?
  {
    mv.take.Some? && mv.take != Some(BodyData) && mv.take != Some(ValueData) ==> c != 0
  }

  /** What every byte of every run satisfies. */
  predicate Good(s: State, c: Byte, mv: Move) {
    mv.Go? ==>
      && Sound(mv.next) && Fresh(mv) && TextTaken(mv, c)
      && (!s.ChunkData? && !s.BodyIdentity? ==> Shape(s, mv))
  }

  lemma StartGood(p: Parser, c: Byte)
    requires Sound(p) && p.state.StartReq?
    ensures Good(p.state, c, OnStart(p, c))
  {
  }

  lemma MethodGood(p: Parser, c: Byte)
    requires Sound(p) && p.state.ReqMethod?
    ensures Good(p.state, c, OnMethod(p, c))
  {
  }

  /** parse_url_char leads to a URL state or to the error state. */
  lemma UrlStates(s: State, c: Byte)
    ensures var t := ParseUrlChar(s, c); (t == Dead || InUrl(t)) && (c == 0 ==> t == Dead)
  {
    assert c == 0 ==> ParseServerChar(c) == Dead && ParseQueryChar(c) == Dead;
  }

  lemma UrlMoveGood(p: Parser, t: State, c: Byte)
    requires Sound(p) && (InUrl(p.state) || p.state.SpacesBeforeUrl?)
    requires (t == Dead || InUrl(t)) && (c == 0 ==> t == Dead)
    ensures Good(p.state, c, UrlMove(p, t))
  {
  }

  lemma UrlEndGood(p: Parser, q: Parser, c: Byte)
    requires Sound(p) && InUrl(p.state) && q.flags == p.flags && q.contentLength == p.contentLength
    requires q.state.HttpStart? || q.state.LineAlmostDone? || q.state.FieldStart?
    ensures Good(p.state, c, Flushing(q, UrlData))
  {
  }

  lemma UrlGood(p: Parser, c: Byte)
    requires Sound(p) && InUrl(p.state)
    ensures Good(p.state, c, OnUrl(p, c))
  {
    var mv := OnUrl(p, c);
    if mv.Go? && mv.flush.Some? {
      UrlEndGood(p, mv.next, c);
    } else {
      UrlStates(p.state, c);
      UrlMoveGood(p, ParseUrlChar(p.state, c), c);
    }
  }

  lemma SpacesGood(p: Parser, c: Byte)
    requires Sound(p) && p.state.SpacesBeforeUrl?
    ensures Good(p.state, c, OnSpaces(p, c))
  {
    var s := if p.verb == CONNECT then ServerStart else SpacesBeforeUrl;
    UrlStates(s, c);
    UrlMoveGood(p, ParseUrlChar(s, c), c);
  }

  /** A silent move to a state about which the invariant says nothing. */
  lemma SilentGood(p: Parser, q: Parser, c: Byte)
    requires Sound(p) && KindOf(p.state).None? && q.flags == p.flags && q.contentLength == p.contentLength
    requires !Passing(q.state) && !InChunks(q.state) && !q.state.BodyIdentity? && KindOf(q.state).None?
    requires Named(q.state) ==> Named(p.state)
    ensures Good(p.state, c, Silent(q))
  {
  }

  lemma VersionGood(p: Parser, c: Byte)
    requires Sound(p) && KindOf(p.state).None? && !Named(p.state)
    ensures Good(p.state, c, OnVersion(p, c))
  {
    var mv := OnVersion(p, c);
    if mv.Go? {
      VersionSilent(p, c);
      SilentGood(p, mv.next, c);
    }
  }

  lemma VersionSilent(p: Parser, c: Byte)
    requires OnVersion(p, c).Go?
    ensures var q := OnVersion(p, c).next;
            && OnVersion(p, c) == Silent(q) && q.flags == p.flags && q.contentLength == p.contentLength
            && (q.state.FieldStart? || q.state.LineAlmostDone? || q.state.HttpStart? || q.state.HttpH? || q.state.HttpHT?
                || q.state.HttpHTT? || q.state.HttpHTTP? || q.state.HttpMajor? || q.state.HttpDot?
                || q.state.HttpMinor? || q.state.HttpEnd?)
  {
  }

  lemma FieldTokenState(p: Parser, c: Byte, ch: Byte)
    requires FieldHeaderState(p.headerState)
    ensures var q := OnFieldToken(p, c, ch);
            FieldHeaderState(q.headerState) && q == p.(index := q.index, headerState := q.headerState)
  {
  }

  lemma FieldGood(p: Parser, c: Byte)
    requires Sound(p) && p.state.Field?
    ensures Good(p.state, c, OnField(p, c))
  {
    FieldTokenState(p, TokenOf(c), c);
  }

  /** The end of a message may be reached from any header or body state. */
  lemma CompletingGood(s: State, q: Parser, exit: bool, reset: bool, c: Byte)
    requires KindOf(s).None? && q.state.StartReq?
    requires q.contentLength <= MaxLength && (q.flags.contentLength ==> q.contentLength < MaxLength)
    ensures Good(s, c, Completing(q, exit, reset))
  {
  }

  lemma HeadersDoneGood(s: State, p: Parser, c: Byte)
    requires KindOf(s).None? && p.contentLength <= MaxLength && (p.flags.contentLength ==> p.contentLength < MaxLength)
    ensures Good(s, c, OnHeadersDone(p)) && OnHeadersDone(p).Go?
  {
    var mv := OnHeadersDone(p);
    if mv.complete {
      CompletingGood(s, mv.next, mv.exit, mv.reset, c);
    }
  }

  lemma AlmostDoneGood(s: State, p: Parser, c: Byte)
    requires KindOf(s).None? && p.contentLength <= MaxLength && (p.flags.contentLength ==> p.contentLength < MaxLength)
    ensures Good(s, c, OnHeadersAlmostDone(p))
  {
    if p.flags.trailing {
      CompletingGood(s, p.(state := StartReq), p.upgrade, false, c);
    } else {
      HeadersDoneGood(s, p.(upgrade := (p.flags.upgrade && p.flags.connectionUpgrade) || p.verb == CONNECT), c);
    }
  }

  lemma FieldStartGood(s: State, p: Parser, c: Byte)
    requires KindOf(s).None? && Sound(p) && p.state.FieldStart?
    ensures Good(s, c, OnFieldStart(p, c))
  {
    if c == LF {
      AlmostDoneGood(s, p, c);
    }
  }

  lemma ValueTakenGood(p: Parser, q: Parser, c: Byte)
    requires Sound(p) && Named(p.state) && !p.state.Value? && Sound(q) && q.state.Value?
    ensures Good(p.state, c, Taking(q, ValueData))
  {
  }

  lemma ValueStartSound(p: Parser, c: Byte)
    requires Sound(p) && OnValueStart(p, c).Go?
    ensures var q := OnValueStart(p, c).next;
            OnValueStart(p, c) == Taking(q, ValueData) && Sound(q) && q.state.Value?
  {
    assert !ConnectionToken(Lower(c), Token).Connection?;
  }

  lemma ValueStartGood(p: Parser, c: Byte)
    requires Sound(p) && Named(p.state) && !p.state.Value?
    ensures Good(p.state, c, OnValueStart(p, c))
  {
    if OnValueStart(p, c).Go? {
      ValueStartSound(p, c);
      ValueTakenGood(p, OnValueStart(p, c).next, c);
    }
  }

  lemma DiscardWsGood(p: Parser, c: Byte)
    requires Sound(p) && p.state.DiscardWs?
    ensures Good(p.state, c, OnDiscardWs(p, c))
  {
    ValueStartGood(p, c);
  }

  /** A character of a value changes only the matcher, the flags and the length. */
  lemma ValueCharSound(p: Parser, c: Byte)
    requires Sound(p) && p.state.Value? && OnValueChar(p, c).Some?
    ensures Sound(OnValueChar(p, c).value) && OnValueChar(p, c).value.state.Value?
  {
    if p.headerState.ContentLengthNum? {
      LengthDigitSound(p, c);
    } else {
      ValueCharKeeps(p, c);
    }
  }

  lemma LengthDigitSound(p: Parser, c: Byte)
    requires p.flags.contentLength && p.contentLength < MaxLength && OnLengthDigit(p, c).Some?
    ensures var q := OnLengthDigit(p, c).value;
            && q == p.(headerState := q.headerState, contentLength := q.contentLength)
            && q.contentLength < MaxLength && (q.headerState.ContentLengthNum? || q.headerState.ContentLengthWs?)
  {
    if IsNum(c) {
      ContentDigitExact(p.contentLength, c - '0' as int);
    }
  }

  /** The matcher of a value never returns to a state of the name matcher. */
  predicate InnerValueState(h: HeaderState) {
    !h.ContentLengthNum? && !h.ContentLength? && !h.Connection? && !h.TransferEncoding?
  }

  lemma ValueCharKeeps(p: Parser, c: Byte)
    requires InnerValueState(p.headerState) && OnValueChar(p, c).Some?
    ensures var q := OnValueChar(p, c).value;
            && q.state == p.state && q.contentLength == p.contentLength && q.flags.contentLength == p.flags.contentLength
            && InnerValueState(q.headerState)
  {
    var h := p.headerState;
    if h.TokenStart? {
      assert InnerValueState(ConnectionToken(Lower(c), TokenAfter(Lower(c))));
    } else if h.KeepAlive? || h.Close? || h.UpgradeToken? {
      AfterTokenKeeps(p, c);
    }
  }

  lemma AfterTokenKeeps(p: Parser, c: Byte)
    requires InnerValueState(p.headerState)
    ensures var q := AfterToken(p, c);
            && q.state == p.state && q.contentLength == p.contentLength && q.flags.contentLength == p.flags.contentLength
            && InnerValueState(q.headerState)
  {
  }

  lemma ValueGood(p: Parser, c: Byte)
    requires Sound(p) && p.state.Value?
    ensures Good(p.state, c, OnValue(p, c))
  {
    if OnValueChar(p, c).Some? {
      ValueCharSound(p, c);
    }
  }

  lemma HeaderEndSound(p: Parser)
    requires Sound(p) && Named(p.state)
    ensures Sound(p.(flags := HeaderFlags(p), state := FieldStart))
  {
  }

  lemma ValueLwsGood(p: Parser, c: Byte)
    requires Sound(p) && p.state.ValueLws?
    ensures Good(p.state, c, OnValueLws(p, c))
  {
    ValueStartGood(p, c);
    HeaderEndSound(p);
    FieldStartGood(p.state, p.(flags := HeaderFlags(p), state := FieldStart), c);
  }

  lemma DiscardLwsGood(p: Parser, c: Byte)
    requires Sound(p) && p.state.DiscardLws?
    ensures Good(p.state, c, OnDiscardLws(p, c))
  {
    HeaderEndSound(p);
    FieldStartGood(p.state, p.(flags := HeaderFlags(p), state := FieldStart), c);
  }

  lemma ChunkSizeGood(p: Parser, c: Byte)
    requires Sound(p) && (p.state.ChunkSizeStart? || p.state.ChunkSize? || p.state.ChunkParameters?)
    ensures Good(p.state, c, OnChunkSize(p, c))
  {
    if Unhex(c) >= 0 {
      ChunkDigitExact(p.contentLength, Unhex(c));
    }
  }

  lemma ChunkSizeDoneGood(p: Parser, c: Byte)
    requires Sound(p) && p.state.ChunkSizeAlmostDone?
    ensures Good(p.state, c, OnChunkSizeDone(p))
  {
  }

  lemma ChunkDataEndGood(p: Parser, c: Byte)
    requires Sound(p)
    ensures p.state.ChunkDataAlmostDone? ==> Good(p.state, c, Flushing(p.(state := ChunkDataDone), BodyData))
    ensures p.state.ChunkDataDone? ==> Good(p.state, c, Resetting(p.(state := ChunkSizeStart)))
  {
  }

  lemma BodyGood(p: Parser, c: Byte)
    requires Sound(p) && (p.state.ChunkData? || p.state.BodyIdentity?)
    ensures Good(p.state, c, OnBody(p))
  {
  }

  lemma NamedGood(p: Parser, c: Byte)
    requires Sound(p) && Named(p.state)
    ensures Good(p.state, c, Next(p, c))
  {
    match p.state
    case DiscardWs => DiscardWsGood(p, c);
    case DiscardLws => DiscardLwsGood(p, c);
    case Value => ValueGood(p, c);
    case ValueLws => ValueLwsGood(p, c);
    case DiscardWsAlmostDone => SilentGood(p, p.(state := DiscardLws), c);
    case HeaderAlmostDone => SilentGood(p, p.(state := ValueLws), c);
  }

  lemma HeaderGood(p: Parser, c: Byte)
    requires Sound(p) && (p.state.FieldStart? || p.state.Field? || p.state.HeadersAlmostDone?)
    ensures Good(p.state, c, Next(p, c))
  {
    match p.state
    case FieldStart => FieldStartGood(p.state, p, c);
    case Field => FieldGood(p, c);
    case HeadersAlmostDone => AlmostDoneGood(p.state, p, c);
  }

  lemma ChunkHeadGood(p: Parser, c: Byte)
    requires Sound(p)
    requires p.state.ChunkSizeStart? || p.state.ChunkSize? || p.state.ChunkParameters? || p.state.ChunkSizeAlmostDone?
    ensures Good(p.state, c, Next(p, c))
  {
    if p.state.ChunkSizeAlmostDone? {
      ChunkSizeDoneGood(p, c);
    } else {
      ChunkSizeGood(p, c);
    }
  }

  lemma BodySectionGood(p: Parser, c: Byte)
    requires Sound(p)
    requires p.state.ChunkData? || p.state.BodyIdentity? || p.state.ChunkDataAlmostDone? || p.state.ChunkDataDone?
    ensures Good(p.state, c, Next(p, c))
  {
    if p.state.ChunkData? || p.state.BodyIdentity? {
      BodyGood(p, c);
    } else {
      ChunkDataEndGood(p, c);
    }
  }

  lemma RequestLineGood(p: Parser, c: Byte)
    requires Sound(p)
    requires !p.state.FieldStart? && !p.state.Field? && !Named(p.state) && !p.state.HeadersAlmostDone?
    requires !InChunks(p.state) && !p.state.BodyIdentity?
    ensures Good(p.state, c, Next(p, c))
  {
    match p.state
    case StartReq => StartGood(p, c);
    case ReqMethod => MethodGood(p, c);
    case SpacesBeforeUrl => SpacesGood(p, c);
    case _ =>
      if InUrl(p.state) {
        UrlGood(p, c);
      } else {
        VersionGood(p, c);
      }
  }

  /** In every reachable state every byte keeps the invariant, and continues, ends or
      starts at most one kind of data. */
  lemma NextGood(p: Parser, c: Byte)
    requires Sound(p)
    ensures Good(p.state, c, Next(p, c))
  {
    if p.state.FieldStart? || p.state.Field? || p.state.HeadersAlmostDone? {
      HeaderGood(p, c);
    } else if Named(p.state) {
      NamedGood(p, c);
    } else if p.state.ChunkSizeStart? || p.state.ChunkSize? || p.state.ChunkParameters? || p.state.ChunkSizeAlmostDone? {
      ChunkHeadGood(p, c);
    } else if InChunks(p.state) || p.state.BodyIdentity? {
      BodySectionGood(p, c);
    } else {
      RequestLineGood(p, c);
    }
  }

  lemma StepSound(s: Outcome, c: Byte, room: nat)
    requires s.Running? ==> Sound(s.p)
    ensures Step(s, c, room).Running? ==> Sound(Step(s, c, room).p)
  {
    if s.Running? {
      NextGood(s.p, c);
    }
  }

  /** Every state that bytes lead to from the start keeps the invariant. */
  lemma {:induction false} RunSound(bytes: seq<Byte>, room: nat)
    ensures var t := Run(Running(Initial, 0, Empty, false), bytes, room); t.Running? ==> Sound(t.p)
  {
    if bytes == [] {
      InitialSound();
    } else {
      var n := |bytes| - 1;
      RunSound(bytes[..n], room);
      StepSound(Run(Running(Initial, 0, Empty, false), bytes[..n], room), bytes[n], room);
    }
  }
}
