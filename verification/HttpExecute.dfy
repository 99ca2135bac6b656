/** http_parser_execute over a buffer: marks into the buffer, callbacks for whole
    fragments, and inner loops over header names, header values and bodies. It is proved
    to agree with the byte-at-a-time meaning of HttpRun. */
module HttpExecute {
  import opened Bytes
  import opened HttpParser
  import opened HttpRequest
  import opened HttpRun
  import opened Folds

  /** HTTP_MAX_HEADER_SIZE */
  const MaxHeaderSize: nat := 80 * 1024

  /** The pointers into the buffer where the fragments begin, or -1 for null. */
  datatype Marks = Marks(url: int, field: int, value: int, body: int)

  const NoMarks := Marks(-1, -1, -1, -1)

  function At(m: Marks, k: Kind): int {
    match k
    case UrlData => m.url
    case FieldData => m.field
    case ValueData => m.value
    case BodyData => m.body
  }

  function Set(m: Marks, k: Kind, i: int): (r: Marks)
    ensures At(r, k) == i && forall j :: j != k ==> At(r, j) == At(m, j)
  {
    match k
    case UrlData => m.(url := i)
    case FieldData => m.(field := i)
    case ValueData => m.(value := i)
    case BodyData => m.(body := i)
  }

  /** Only the mark of the data being read may be set, and for text it is set. */
  ghost predicate MarksFit(m: Marks, s: State, i: int) {
    forall k: Kind ::
      && -1 <= At(m, k) <= i
      && (At(m, k) >= 0 ==> KindOf(s) == Some(k))
      && (KindOf(s) == Some(k) && k != BodyData ==> At(m, k) >= 0)
  }

  /** The request once the fragment that is still in the buffer has been delivered. */
  ghost function Joined(r: Contents, m: Marks, k: Option<Kind>, data: seq<Byte>, i: nat): Contents
    requires i <= |data| && forall k: Kind :: At(m, k) <= i
  {
    if k.None? || At(m, k.value) < 0 then r else Deliver(r, k.value, data[At(m, k.value)..i])
  }

  /** The fragment in the buffer holds no zero byte, unless it is body data. */
  ghost predicate TextFragment(m: Marks, k: Option<Kind>, data: seq<Byte>, i: nat)
    requires i <= |data| && forall k: Kind :: At(m, k) <= i
  {
    k.Some? && k != Some(BodyData) && At(m, k.value) >= 0 ==> NoNul(data[At(m, k.value)..i])
  }

  /** `step` is the byte-at-a-time machine. The number n only keeps the definition
      folded where it is not needed. */
  ghost predicate Machine(step: (Outcome, Byte) -> Outcome, room: nat, n: nat) {
    if n == 0 then step == Stepper(room) else Machine(step, room, n - 1)
  }

  lemma {:induction false} MachineIs(step: (Outcome, Byte) -> Outcome, room: nat, n: nat)
    requires Machine(step, room, n)
    ensures step == Stepper(room)
  {
    if n > 0 {
      MachineIs(step, room, n - 1);
    }
  }

  lemma {:induction false} MachineMade(room: nat, n: nat)
    ensures Machine(Stepper(room), room, n)
  {
    if n > 0 {
      MachineMade(room, n - 1);
    }
  }

  lemma FieldStep(step: (Outcome, Byte) -> Outcome, room: nat, s: Outcome, c: Byte)
    requires Machine(step, room, 9) && s.Running? && s.p.state.Field?
    ensures step(s, c) == Result(s, c, OnField(s.p, c), room)
  {
    MachineIs(step, room, 9);
  }

  lemma ValueStep(step: (Outcome, Byte) -> Outcome, room: nat, s: Outcome, c: Byte)
    requires Machine(step, room, 9) && s.Running? && s.p.state.Value?
    ensures step(s, c) == Result(s, c, OnValue(s.p, c), room)
  {
    MachineIs(step, room, 9);
  }

  lemma BodyStep(step: (Outcome, Byte) -> Outcome, room: nat, s: Outcome, c: Byte)
    requires Machine(step, room, 9) && s.Running? && (s.p.state.ChunkData? || s.p.state.BodyIdentity?)
    ensures step(s, c) == Result(s, c, OnBody(s.p), room)
  {
    MachineIs(step, room, 9);
  }

  lemma StuckStep(step: (Outcome, Byte) -> Outcome, room: nat, s: Outcome, c: Byte)
    requires Machine(step, room, 9) && !s.Running?
    ensures step(s, c) == s
  {
    MachineIs(step, room, 9);
  }

  /** A header byte beyond the room. */
  lemma TooLong(step: (Outcome, Byte) -> Outcome, room: nat, s: Outcome, c: Byte)
    requires Machine(step, room, 9) && s.Running? && ParsingHeader(s.p.state) && s.nread >= room
    ensures step(s, c) == Outside
  {
    MachineIs(step, room, 9);
  }

  /** The machine stays where it stopped. */
  lemma {:induction false} Stuck(step: (Outcome, Byte) -> Outcome, room: nat, s: Outcome, data: seq<Byte>, i: nat, j: nat)
    requires Machine(step, room, 9) && i <= j <= |data| && !Fold(step, s, data[..i]).Running?
    ensures Fold(step, s, data[..j]) == Fold(step, s, data[..i])
  {
    if i < j {
      Stuck(step, room, s, data, i, j - 1);
      FoldNext(step, s, data, j - 1);
      StuckStep(step, room, Fold(step, s, data[..j - 1]), data[j - 1]);
    }
  }

  /** Every byte but the last is read, and the last is one that only some divisions check. */
  ghost predicate OpensLast(step: (Outcome, Byte) -> Outcome, start: Outcome, data: seq<Byte>) {
    data != [] && Fold(step, start, data[..|data| - 1]).Running? && Fold(step, start, data).Open?
  }

  lemma OpensLastMeans(step: (Outcome, Byte) -> Outcome, room: nat, start: Outcome, data: seq<Byte>)
    requires Machine(step, room, 9) && OpensLast(step, start, data)
    ensures var s, c := Fold(step, start, data[..|data| - 1]), data[|data| - 1];
            s.scanned && s.p.state.Value? && s.p.headerState.General? && s.nread < room && !IsHeaderChar(c)
  {
    MachineIs(step, room, 9);
    OpensBy(Fold(step, start, data[..|data| - 1]), data[|data| - 1], room);
  }

  lemma OpensBy(s: Outcome, c: Byte, room: nat)
    requires s.Running? && Step(s, c, room).Open?
    ensures s.scanned && s.p.state.Value? && s.p.headerState.General? && s.nread < room && !IsHeaderChar(c)
  {
  }

  lemma RunningBefore(step: (Outcome, Byte) -> Outcome, room: nat, start: Outcome, data: seq<Byte>, i: nat, j: nat)
    requires Machine(step, room, 9) && i <= j <= |data| && Fold(step, start, data[..j]).Running?
    ensures Fold(step, start, data[..i]).Running?
  {
    if !Fold(step, start, data[..i]).Running? {
      Stuck(step, room, start, data, i, j);
    }
  }

  /** The move on a byte outside the inner loops. */
  method Transition(f: Parser, c: Byte, ghost step: (Outcome, Byte) -> Outcome, ghost room: nat, ghost s: Outcome)
    returns (mv: Move)
    requires Machine(step, room, 9) && Sound(f) && (s.Running? ==> s.p == f)
    ensures Good(f.state, c, mv)
    ensures s.Running? ==> step(s, c) == Result(s, c, mv, room)
  {
    mv := Next(f, c);
    NextGood(f, c);
    MachineIs(step, room, 9);
  }

  /** The parser stopped, and so has the machine; a failure has the same cause. */
  ghost predicate StoppedAlike(t: Outcome, error: Option<Error>) {
    !t.Running? && (t.Failed? ==> error == Some(t.error))
  }

  /** What an inner loop has established: it has moved from s0 to s over a fragment. */
  ghost predicate Ran(s0: Outcome, s: Outcome, f: Parser, k: Kind, fragment: seq<Byte>) {
    && !s.Failed?
    && (s.Running? ==>
          && s0.Running? && s.p == f && s.nread == s0.nread + |fragment|
          && NoNul(fragment) && s.r == Deliver(s0.r, k, fragment))
  }

  /** Where an inner loop may begin. */
  ghost predicate Entered(s0: Outcome, f: Parser, k: Kind) {
    !s0.Failed? && (s0.Running? ==> s0.p == f && Settled(s0.r, k) && Ready(s0.r, k))
  }

  /** Once a byte has been read, the count is within the room. */
  ghost predicate Bounded(s: Outcome, p0: nat, p: nat, room: nat) {
    p0 < p && s.Running? ==> s.nread <= room
  }

  lemma RanStart(s0: Outcome, f: Parser, k: Kind)
    requires Entered(s0, f, k)
    ensures Ran(s0, s0, f, k, [])
  {
  }

  /** One more byte of the fragment. */
  lemma RanMore(s0: Outcome, s: Outcome, f: Parser, k: Kind, fragment: seq<Byte>,
                c: Byte, f': Parser, s': Outcome, room: nat)
    requires Ran(s0, s, f, k, fragment) && (s0.Running? ==> Ready(s0.r, k))
    requires k == ValueData || c != 0
    requires s.Running? ==> ParsingHeader(s.p.state) && s' == Result(s, c, Taking(f', k), room)
    requires !s.Running? ==> s' == s
    ensures Ran(s0, s', f', k, fragment + [c]) && (s'.Running? ==> s'.nread <= room)
  {
    if s.Running? && s'.Running? {
      DeliverTwice(s0.r, k, fragment, [c]);
    }
  }

  ghost predicate InField(s: Outcome) {
    s.Running? ==> s.p.state.Field?
  }

  /** The inner loop of s_header_field: to the first byte that is no token character. */
  method FieldLoop(f0: Parser, data: seq<Byte>, p0: nat, ghost step: (Outcome, Byte) -> Outcome,
                   ghost room: nat, ghost start: Outcome)
    returns (f: Parser, p: nat)
    requires Machine(step, room, 9) && p0 < |data| && f0.state.Field? && Sound(f0)
    requires Entered(Fold(step, start, data[..p0]), f0, FieldData)
    ensures p0 <= p <= |data| && f.state.Field? && Sound(f)
    ensures p < |data| ==> TokenOf(data[p]) == 0
    ensures Ran(Fold(step, start, data[..p0]), Fold(step, start, data[..p]), f, FieldData, data[p0..p])
    ensures Bounded(Fold(step, start, data[..p]), p0, p, room)
    ensures p0 < p ==> InField(Fold(step, start, data[..p - 1]))
  {
    f, p := f0, p0;
    ghost var s0, s := Fold(step, start, data[..p0]), Fold(step, start, data[..p0]);
    RanStart(s0, f, FieldData);
    assert data[p0..p] == [];
    while p < |data|
      invariant p0 <= p <= |data| && f.state.Field? && Sound(f)
      invariant s == Fold(step, start, data[..p]) && Ran(s0, s, f, FieldData, data[p0..p]) && Bounded(s, p0, p, room)
      invariant p0 < p ==> InField(Fold(step, start, data[..p - 1]))
    {
      var ch := data[p];
      var c := TokenOf(ch);
      if c == 0 {
        break;
      }
      var f' := FieldToken(f, c, ch);
      ghost var s' := FieldTokenStep(step, room, start, data, p, s, f, f');
      RanMore(s0, s, f, FieldData, data[p0..p], ch, f', s', room);
      SliceSnoc(data, p0, p);
      f, s, p := f', s', p + 1;
    }
  }

  method FieldToken(f: Parser, c: Byte, ch: Byte) returns (f': Parser)
    requires f.state.Field? && Sound(f)
    ensures f' == OnFieldToken(f, c, ch) && f'.state.Field? && Sound(f')
  {
    f' := OnFieldToken(f, c, ch);
    FieldTokenState(f, c, ch);
  }

  lemma FieldTokenStep(step: (Outcome, Byte) -> Outcome, room: nat, start: Outcome, data: seq<Byte>, p: nat,
                       s: Outcome, f: Parser, f': Parser)
    returns (s': Outcome)
    requires Machine(step, room, 9) && p < |data| && s == Fold(step, start, data[..p])
    requires f.state.Field? && (s.Running? ==> s.p == f)
    requires TokenOf(data[p]) != 0 && f' == OnFieldToken(f, TokenOf(data[p]), data[p])
    ensures s' == Fold(step, start, data[..p + 1]) && data[p] != 0
    ensures s.Running? ==> s' == Result(s, data[p], Taking(f', FieldData), room)
    ensures !s.Running? ==> s' == s
  {
    FoldNext(step, start, data, p);
    s' := step(s, data[p]);
    if s.Running? {
      FieldStep(step, room, s, data[p]);
    } else {
      StuckStep(step, room, s, data[p]);
    }
  }

  /** memchr for CR and LF over at most `limit` bytes: the nearer of the two, or the end
      of the buffer when there is neither. */
  method FindLineEnd(data: seq<Byte>, p: nat, limit: nat) returns (q: nat)
    requires p + limit <= |data|
    ensures p <= q <= |data|
    ensures q < p + limit ==> data[q] == CR || data[q] == LF
    ensures q >= p + limit ==> q == |data|
    ensures forall i :: p <= i < q && i < p + limit ==> data[i] != CR && data[i] != LF
  {
    q := p;
    while q < p + limit
      invariant p <= q <= p + limit
      invariant forall i :: p <= i < q ==> data[i] != CR && data[i] != LF
    {
      if data[q] == CR || data[q] == LF {
        return;
      }
      q := q + 1;
    }
    q := |data|;
  }

  /** A byte of a value, in the machine. */
  lemma ValueCharStep(step: (Outcome, Byte) -> Outcome, room: nat, start: Outcome, data: seq<Byte>, p: nat,
                      s: Outcome, f: Parser, next: Option<Parser>)
    returns (s': Outcome)
    requires Machine(step, room, 9) && p < |data| && s == Fold(step, start, data[..p])
    requires f.state.Value? && !s.Failed? && (s.Running? ==> s.p == f)
    requires data[p] != CR && data[p] != LF && next == OnValueChar(f, data[p])
    ensures s' == Fold(step, start, data[..p + 1])
    ensures s.Running? && IsHeaderChar(data[p]) && next.Some? ==> s' == Result(s, data[p],
      Taking(next.value, ValueData), room)
    ensures !(IsHeaderChar(data[p]) && next.Some?) ==>
              !s'.Running? && (s'.Failed?
                  ==> s'.error == if IsHeaderChar(data[p]) then InvalidContentLength else InvalidHeaderToken)
    ensures !s.Running? ==> s' == s
    ensures s.Running? && Unchecked(s, data[p]) ==> !s'.Failed?
    ensures s.Running? && s'.Running? ==> s'.scanned == f.headerState.General?
  {
    FoldNext(step, start, data, p);
    s' := step(s, data[p]);
    if s.Running? {
      ValueStep(step, room, s, data[p]);
    } else {
      StuckStep(step, room, s, data[p]);
    }
  }

  /** Where no line ends, a value that is not being matched runs on unchanged. */
  lemma {:induction false} SkipRuns(step: (Outcome, Byte) -> Outcome, room: nat, start: Outcome, data: seq<Byte>,
                                    p0: nat, p: nat, q: nat, f: Parser)
    requires Machine(step, room, 9) && p0 <= p <= q <= |data| && f.state.Value? && f.headerState.General?
    requires var s0 := Fold(step, start, data[..p0]);
             (s0.Running? ==> Ready(s0.r, ValueData)) && Ran(s0, Fold(step, start, data[..p]), f, ValueData, data[p0..p])
    requires forall i :: p <= i < q ==> data[i] != CR && data[i] != LF
    requires p < q ==> IsHeaderChar(data[p])
    ensures var s0, s := Fold(step, start, data[..p0]), Fold(step, start, data[..q]);
            Ran(s0, s, f, ValueData, data[p0..q]) && (q > p && s.Running? ==> s.nread <= room && s.scanned)
    decreases q
  {
    if p < q {
      SkipRuns(step, room, start, data, p0, p, q - 1, f);
      SkipOne(step, room, start, data, p0, q - 1, f);
    }
  }

  lemma SkipOne(step: (Outcome, Byte) -> Outcome, room: nat, start: Outcome, data: seq<Byte>,
                p0: nat, p: nat, f: Parser)
    requires Machine(step, room, 9) && p0 <= p < |data| && f.state.Value? && f.headerState.General?
    requires var s0 := Fold(step, start, data[..p0]);
             (s0.Running? ==> Ready(s0.r, ValueData)) && Ran(s0, Fold(step, start, data[..p]), f, ValueData, data[p0..p])
    requires data[p] != CR && data[p] != LF
    requires var s := Fold(step, start, data[..p]); IsHeaderChar(data[p]) || (s.Running? ==> s.scanned)
    ensures var s0, s := Fold(step, start, data[..p0]), Fold(step, start, data[..p + 1]);
            Ran(s0, s, f, ValueData, data[p0..p + 1]) && (s.Running? ==> s.nread <= room && s.scanned)
  {
    var s0, s := Fold(step, start, data[..p0]), Fold(step, start, data[..p]);
    var s' := ValueCharStep(step, room, start, data, p, s, f, Some(f));
    SliceSnoc(data, p0, p);
    if !s.Running? || IsHeaderChar(data[p]) {
      RanMore(s0, s, f, ValueData, data[p0..p], data[p], f, s', room);
    }
  }

  /** The count has come n bytes on. */
  ghost predicate CountedTo(s0: Outcome, s: Outcome, n: int) {
    s.Running? ==> s0.Running? && s.nread == s0.nread + n
  }

  /** The skip over the rest of a value. Where the search stopped at its limit, the
      header is too long. */
  method Skip(f: Parser, data: seq<Byte>, p0: nat, p: nat, ghost step: (Outcome, Byte) -> Outcome,
              ghost room: nat, ghost start: Outcome)
    returns (q: nat)
    requires Machine(step, room, 9) && p0 <= p < |data| && f.state.Value? && f.headerState.General?
    requires room < MaxHeaderSize && data[p] != CR && data[p] != LF && IsHeaderChar(data[p])
    requires var s0 := Fold(step, start, data[..p0]);
             (s0.Running? ==> Ready(s0.r, ValueData)) && Ran(s0, Fold(step, start, data[..p]), f, ValueData, data[p0..p])
    ensures p < q <= |data| && (q < |data| ==> data[q] == CR || data[q] == LF)
    ensures Ran(Fold(step, start, data[..p0]), Fold(step, start, data[..q]), f, ValueData, data[p0..q])
    ensures Bounded(Fold(step, start, data[..q]), p0, q, room)
    ensures CountedTo(Fold(step, start, data[..p0]), Fold(step, start, data[..q - 1]), q - 1 - p0)
  {
    var limit := |data| - p;
    if limit > MaxHeaderSize {
      limit := MaxHeaderSize;
    }
    q := FindLineEnd(data, p, limit);
    if q < p + limit {
      SkipRuns(step, room, start, data, p0, p, q, f);
      SkipRuns(step, room, start, data, p0, p, q - 1, f);
    } else {
      SkipRuns(step, room, start, data, p0, p, p + limit, f);
      if p + limit < q {
        assert !Fold(step, start, data[..p + limit]).Running?;
        Stuck(step, room, start, data, p + limit, q);
        Stuck(step, room, start, data, p + limit, q - 1);
      } else {
        SkipRuns(step, room, start, data, p0, p, q - 1, f);
      }
    }
  }

  ghost predicate NotScanned(s: Outcome) {
    s.Running? ==> !s.scanned
  }

  /** The inner loop of s_header_value: to the end of the line, or to a byte that is
      refused. */
  method ValueLoop(f0: Parser, data: seq<Byte>, p0: nat, ghost step: (Outcome, Byte) -> Outcome,
                   ghost room: nat, ghost start: Outcome)
    returns (f: Parser, p: nat, bad: Option<Error>)
    requires Machine(step, room, 9) && p0 < |data| && f0.state.Value? && Sound(f0) && room < MaxHeaderSize
    requires Entered(Fold(step, start, data[..p0]), f0, ValueData)
    ensures p0 <= p <= |data| && f.state.Value? && Sound(f)
    ensures bad.None? ==> (p < |data| ==> data[p] == CR || data[p] == LF)
    ensures bad.None? ==> Ran(Fold(step, start, data[..p0]), Fold(step, start, data[..p]), f, ValueData, data[p0..p])
    ensures bad.None? ==> Bounded(Fold(step, start, data[..p]), p0, p, room)
    ensures bad.Some? ==> p < |data| && StoppedAlike(Fold(step, start, data[..p + 1]), bad)
    ensures !IsHeaderChar(data[p0]) ==> bad == Some(InvalidHeaderToken)
    ensures bad.Some? && p0 < p ==> NotScanned(Fold(step, start, data[..p]))
    ensures bad.None? && p0 < p ==> CountedTo(Fold(step, start, data[..p0]), Fold(step, start, data[..p - 1]), p - 1 - p0)
  {
    f, p, bad := f0, p0, None;
    ghost var s0 := Fold(step, start, data[..p0]);
    RanStart(s0, f, ValueData);
    assert data[p0..p] == [];
    while p < |data|
      invariant p0 <= p <= |data| && f.state.Value? && Sound(f) && bad.None?
      invariant Ran(s0, Fold(step, start, data[..p]), f, ValueData, data[p0..p])
      invariant Bounded(Fold(step, start, data[..p]), p0, p, room)
      invariant p > p0 ==> IsHeaderChar(data[p0])
      invariant p > p0 ==> CountedTo(s0, Fold(step, start, data[..p - 1]), p - 1 - p0)
      invariant p0 < p < |data| && data[p] != CR && data[p] != LF ==> NotScanned(Fold(step, start, data[..p]))
    {
      var ch := data[p];
      if ch == CR || ch == LF {
        break;
      }
      if IsHeaderChar(ch) && f.headerState.General? {
        p := Skip(f, data, p0, p, step, room, start);
      } else {
        f, bad := ValueOne(f, data, p0, p, step, room, start);
        if bad.Some? {
          return;
        }
        p := p + 1;
      }
    }
  }

  /** One character of a value that is being matched. */
  method ValueOne(f: Parser, data: seq<Byte>, p0: nat, p: nat, ghost step: (Outcome, Byte) -> Outcome,
                  ghost room: nat, ghost start: Outcome)
    returns (f': Parser, bad: Option<Error>)
    requires Machine(step, room, 9) && p0 <= p < |data| && f.state.Value? && Sound(f)
    requires data[p] != CR && data[p] != LF
    requires var s0 := Fold(step, start, data[..p0]);
             (s0.Running? ==> Ready(s0.r, ValueData)) && Ran(s0, Fold(step, start, data[..p]), f, ValueData, data[p0..p])
    ensures f'.state.Value? && Sound(f')
    ensures bad.None? ==> Ran(Fold(step, start, data[..p0]), Fold(step, start, data[..p + 1]), f', ValueData,
      data[p0..p + 1])
    ensures bad.None? ==> Bounded(Fold(step, start, data[..p + 1]), p0, p + 1, room)
    ensures bad.Some? ==> StoppedAlike(Fold(step, start, data[..p + 1]), bad)
    ensures !IsHeaderChar(data[p]) ==> bad == Some(InvalidHeaderToken)
    ensures bad.None? ==> IsHeaderChar(data[p])
    ensures bad.None? && !f.headerState.General? ==> NotScanned(Fold(step, start, data[..p + 1]))
  {
    ghost var s0, s := Fold(step, start, data[..p0]), Fold(step, start, data[..p]);
    var ch := data[p];
    var next := ValueChar(f, ch);
    ghost var s' := ValueCharStep(step, room, start, data, p, s, f, next);
    f', bad := f, None;
    if !IsHeaderChar(ch) {
      bad := Some(InvalidHeaderToken);
    } else if next.None? {
      bad := Some(InvalidContentLength);
    } else {
      f' := next.value;
      RanMore(s0, s, f, ValueData, data[p0..p], ch, f', s', room);
      SliceSnoc(data, p0, p);
    }
  }

  method ValueChar(f: Parser, ch: Byte) returns (next: Option<Parser>)
    requires f.state.Value? && Sound(f)
    ensures next == OnValueChar(f, ch)
    ensures next.Some? ==> next.value.state.Value? && Sound(next.value)
  {
    next := OnValueChar(f, ch);
    if next.Some? {
      ValueCharSound(f, ch);
    }
  }

  /** Inside a body, n bytes are read and the count falls by n. */
  lemma {:induction false} BodyRuns(step: (Outcome, Byte) -> Outcome, room: nat, start: Outcome, data: seq<Byte>,
                                    p: nat, n: nat, s: Outcome)
    requires Machine(step, room, 9) && p + n <= |data| && s == Fold(step, start, data[..p])
    requires s.Running? && (s.p.state.ChunkData? || s.p.state.BodyIdentity?) && n < s.p.contentLength
    ensures Fold(step, start, data[..p + n]) ==
            Running(s.p.(contentLength := s.p.contentLength - n), s.nread, BodyAdded(s.r, data[p..p + n]), n == 0
                && s.scanned)
  {
    if n == 0 {
      assert data[p..p] == [] && s.r.data + [] == s.r.data;
    } else {
      BodyRuns(step, room, start, data, p, n - 1, s);
      var t := Fold(step, start, data[..p + n - 1]);
      FoldNext(step, start, data, p + n - 1);
      BodyStep(step, room, t, data[p + n - 1]);
      BodyMore(s.r.data, data, p, n);
    }
  }

  lemma BodyMore(body: seq<Byte>, data: seq<Byte>, p: nat, n: nat)
    requires n >= 1 && p + n <= |data|
    ensures (body + data[p..p + n - 1]) + [data[p + n - 1]] == body + data[p..p + n]
  {
  }

  /** The last byte of a body or chunk. */
  lemma BodyEnds(step: (Outcome, Byte) -> Outcome, room: nat, start: Outcome, data: seq<Byte>, p: nat, n: nat, s: Outcome)
    requires Machine(step, room, 9) && p + n <= |data| && s == Fold(step, start, data[..p])
    requires s.Running? && (s.p.state.ChunkData? || s.p.state.BodyIdentity?) && n == s.p.contentLength && n >= 1
    ensures var t := Fold(step, start, data[..p + n]); var r := BodyAdded(s.r, data[p..p + n]);
            if s.p.state.ChunkData? then t == Running(s.p.(contentLength := 0, state := ChunkDataAlmostDone), s.nread,
                r, false)
            else if s.p.upgrade then t == Outside
            else t == Running(s.p.(contentLength := 0, state := StartReq), s.nread, Completed(r, s.p.verb), false)
  {
    BodyRuns(step, room, start, data, p, n - 1, s);
    var t := Fold(step, start, data[..p + n - 1]);
    FoldNext(step, start, data, p + n - 1);
    BodyStep(step, room, t, data[p + n - 1]);
    BodyMore(s.r.data, data, p, n);
  }
}
