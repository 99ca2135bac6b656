/** What the audio reorder buffer does, seen on unbounded stream positions instead of
    wrapping 16-bit sequence numbers, and what it keeps over whole runs
    (raop_buffer.c). RaopBuffer holds the code itself. */
module Playout {
  import opened Bytes

  /** RAOP_BUFFER_LENGTH */
  const Length: int := 64

  type U16 = x: int | 0 <= x < 0x1_0000

  datatype Option<+T> = None | Some(value: T)

  /** The sequence number of a stream position. */
  function Seq(q: int): U16 { q % 0x1_0000 }

  /** seqnum_cmp: the difference, cut to a signed 16-bit number. */
  function SeqCmp(s1: U16, s2: U16): (d: int)
    ensures -0x8000 <= d < 0x8000
  {
    var d := s1 as int - s2;
    if d >= 0x8000 then d - 0x1_0000 else if d < -0x8000 then d + 0x1_0000 else d
  }

  /** Serial number comparison (section 3.2 of RFC 1982): within half the number space,
      wrapped numbers differ as the positions do. */
  lemma SeqCmpIs(a: int, b: int)
    requires -0x8000 <= a - b < 0x8000
    ensures SeqCmp(Seq(a), Seq(b)) == a - b
  {
  }

  lemma SeqCmpSelf(s: U16, b: int)
    ensures Seq(b + SeqCmp(s, Seq(b))) == s
  {
  }

  /** Positions less than the buffer length apart have different slots. */
  lemma SlotsDiffer(a: int, b: int)
    requires -Length < a - b < Length && Seq(a) % Length == Seq(b) % Length
    ensures a == b
  {
    var x, y := 1024 * (a / 0x1_0000) + Seq(a) / Length, 1024 * (b / 0x1_0000) + Seq(b) / Length;
    assert a == 0x1_0000 * (a / 0x1_0000) + Seq(a) && b == 0x1_0000 * (b / 0x1_0000) + Seq(b);
    assert a - b == Length * (x - y);
  }

  /** A decoded packet. */
  datatype Frame = Frame(timestamp: int, audio: seq<Byte>)

  /** What is handed to the player. */
  datatype Output = Silence | Audio(frame: Frame)

  /** The buffer: the next position to play, the position after the newest packet, and
      the packets that wait. `empty` is the flag is_empty. */
  datatype Playout = Playout(empty: bool, next: int, end: int, pending: map<int, Frame>)

  /** The span of positions never exceeds the buffer, waiting packets lie inside it, and
      the newest position holds a packet. */
  ghost predicate Ordered(p: Playout) {
    && (p.empty ==> p.pending == map[])
    && (!p.empty ==>
          && p.next <= p.end <= p.next + Length
          && (forall q :: q in p.pending ==> p.next <= q < p.end)
          && (p.next < p.end ==> p.end - 1 in p.pending))
  }

  /** The position that a sequence number means now. */
  function Position(p: Playout, s: U16): int {
    p.next + SeqCmp(s, Seq(p.next))
  }

  /** Whether a packet starts the stream afresh: the buffer is empty, or the packet is so
      far ahead that everything waiting is dropped. */
  predicate Restarts(p: Playout, s: U16) {
    p.empty || Position(p, s) >= p.next + Length
  }

  /** Whether a packet is stored: not late, and not a copy of one that waits. */
  predicate Accepts(p: Playout, s: U16) {
    Restarts(p, s) || (Position(p, s) >= p.next && Position(p, s) !in p.pending)
  }

  function Max(a: int, b: int): int { if a > b then a else b }

  /** raop_buffer_queue */
  function Arrive(p: Playout, s: U16, f: Frame): Playout {
    var q := Position(p, s);
    if !Accepts(p, s) then p
    else if Restarts(p, s) then Playout(false, q, q + 1, map[q := f])
    else Playout(false, p.next, Max(p.end, q + 1), p.pending[q := f])
  }

  /** Whether raop_buffer_dequeue gives anything: with no_resend a gap is skipped at once,
      otherwise only when the span fills the buffer. */
  predicate Gives(p: Playout, noResend: bool) {
    !p.empty && p.next < p.end && (noResend || p.next in p.pending || p.end - p.next >= Length)
  }

  function OutputAt(frames: map<int, Frame>, q: int): Output {
    if q in frames then Audio(frames[q]) else Silence
  }

  /** raop_buffer_dequeue */
  function Take(p: Playout, noResend: bool): Playout {
    if Gives(p, noResend) then p.(next := p.next + 1, pending := p.pending - {p.next}) else p
  }

  /** raop_buffer_flush */
  function Flushed(p: Playout, nextSeq: int): Playout {
    if nextSeq < 0 || nextSeq > 0xffff then
      p.(empty := true, pending := map[])
    else
      var q := Position(p, nextSeq);
      Playout(p.empty, q, q, map[])
  }

  /** What raop_buffer_handle_resends asks for: how many packets from the next position
      on. */
  function Missing(p: Playout, q: int): nat
    requires q < p.end
    decreases p.end - q
  {
    if q in p.pending || q == p.end - 1 then 0 else 1 + Missing(p, q + 1)
  }

  /** On a buffer in use, the request names exactly the gap at the front. */
  lemma {:induction false} MissingIsGap(p: Playout, q: int)
    requires Ordered(p) && !p.empty && p.next <= q < p.end
    ensures q + Missing(p, q) in p.pending
    ensures forall k :: q <= k < q + Missing(p, q) ==> k !in p.pending
    decreases p.end - q
  {
    if q !in p.pending && q != p.end - 1 {
      MissingIsGap(p, q + 1);
    }
  }

  /** What a resend request should name: the missing packets from the next position up to
      the first one that waits, and nothing when none is missing there. */
  ghost predicate NamesGap(p: Playout, request: Option<(U16, int)>) {
    match request
    case None => p.pending == map[] || p.next in p.pending
    case Some((first, count)) =>
      && first == Seq(p.next) && count > 0 && p.next + count in p.pending
      && forall q :: p.next <= q < p.next + count ==> q !in p.pending
  }

  // Runs

  datatype Op = ArriveOp(s: U16, f: Frame) | TakeOp(noResend: bool) | FlushOp(nextSeq: int)

  /** What happened since the stream last started afresh: from which position, which
      packets were stored, and what was played. */
  datatype Stream = Stream(start: int, accepted: map<int, Frame>, played: seq<Output>)

  datatype Session = Session(p: Playout, stream: Stream)

  function Step(s: Session, op: Op): Session {
    match op
    case ArriveOp(n, f) =>
      var q := Position(s.p, n);
      Session(Arrive(s.p, n, f),
              if !Accepts(s.p, n) then s.stream
              else if Restarts(s.p, n) then Stream(q, map[q := f], [])
              else s.stream.(accepted := s.stream.accepted[q := f]))
    case TakeOp(noResend) =>
      Session(Take(s.p, noResend),
              if Gives(s.p, noResend)
              then s.stream.(played := s.stream.played + [OutputAt(s.p.pending, s.p.next)])
              else s.stream)
    case FlushOp(nextSeq) =>
      Session(Flushed(s.p, nextSeq), Stream(Flushed(s.p, nextSeq).next, map[], []))
  }

  function Run(s: Session, ops: seq<Op>): Session
    decreases |ops|
  {
    if ops == [] then s else Run(Step(s, ops[0]), ops[1..])
  }

  /** Output k is for position start + k: the packet stored for that position, or silence
      if none was. What was stored and not yet played waits, and nothing else does. */
  ghost predicate Faithful(s: Session) {
    && Ordered(s.p)
    && (!s.p.empty ==>
          && s.p.next == s.stream.start + |s.stream.played|
          && (forall q :: q in s.stream.accepted ==> s.stream.start <= q < s.p.end)
          && (forall q :: q in s.p.pending <==> q in s.stream.accepted && q >= s.p.next)
          && (forall q :: q in s.p.pending ==> s.p.pending[q] == s.stream.accepted[q])
          && forall k :: 0 <= k < |s.stream.played| ==>
               s.stream.played[k] == OutputAt(s.stream.accepted, s.stream.start + k))
  }

  /** A packet is stored at most once: a position that was ever stored since the start is
      never stored again. */
  lemma StoredOnce(s: Session, n: U16)
    requires Faithful(s) && Accepts(s.p, n) && !Restarts(s.p, n)
    ensures Position(s.p, n) !in s.stream.accepted
  {
  }

  lemma ArriveKeeps(s: Session, n: U16, f: Frame)
    requires Faithful(s)
    ensures Faithful(Step(s, ArriveOp(n, f)))
  {
    if Accepts(s.p, n) && !Restarts(s.p, n) {
      StoredOnce(s, n);
      var s' := Step(s, ArriveOp(n, f));
      assert s'.stream.played == s.stream.played;
    }
  }

  lemma TakeKeeps(s: Session, noResend: bool)
    requires Faithful(s)
    ensures Faithful(Step(s, TakeOp(noResend)))
  {
    if Gives(s.p, noResend) {
      var s' := Step(s, TakeOp(noResend));
      var n := |s.stream.played|;
      assert s'.stream.played[n] == OutputAt(s.stream.accepted, s.stream.start + n);
      if s'.p.next < s'.p.end {
        assert s.p.end - 1 in s.p.pending;
      }
    }
  }

  lemma FlushKeeps(s: Session, nextSeq: int)
    requires Faithful(s)
    ensures Faithful(Step(s, FlushOp(nextSeq)))
  {
  }

  lemma StepKeeps(s: Session, op: Op)
    requires Faithful(s)
    ensures Faithful(Step(s, op))
  {
    match op
    case ArriveOp(n, f) => ArriveKeeps(s, n, f);
    case TakeOp(noResend) => TakeKeeps(s, noResend);
    case FlushOp(nextSeq) => FlushKeeps(s, nextSeq);
  }

  /** Every run of arrivals, takes and flushes is faithful throughout. */
  lemma {:induction false} RunFaithful(s: Session, ops: seq<Op>)
    requires Faithful(s)
    ensures Faithful(Run(s, ops))
    decreases |ops|
  {
    if ops != [] {
      StepKeeps(s, ops[0]);
      RunFaithful(Step(s, ops[0]), ops[1..]);
    }
  }

  /** The state raop_buffer_init leaves. */
  function Fresh(): Session {
    Session(Playout(true, 0, 1, map[]), Stream(0, map[], []))
  }

  /** So is every run of a new buffer. */
  lemma FreshRun(ops: seq<Op>)
    ensures Faithful(Run(Fresh(), ops))
  {
    RunFaithful(Fresh(), ops);
  }

  /** If no position was skipped, the outputs are exactly the stored packets, in order of
      position, whatever order they arrived in. */
  lemma CompleteStream(s: Session)
    requires Faithful(s) && !s.p.empty
    requires forall q :: s.stream.start <= q < s.p.next ==> q in s.stream.accepted
    ensures s.stream.played == seq(|s.stream.played|,
      k requires 0 <= k < |s.stream.played| => Audio(s.stream.accepted[s.stream.start + k]))
  {
  }
}
