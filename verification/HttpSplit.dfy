/** A parser that is sent the same bytes in different pieces: what every division leaves, and when two
    divisions may leave something different. */
module HttpSplit {
  import opened Bytes
  import opened Folds
  import opened HttpParser
  import opened HttpRequest
  import opened HttpRun
  import opened HttpExecute
  import opened HttpConnection

  /** With more room for headers nothing changes but where the machine gives up. */
  lemma ResultRoom(s: Outcome, c: Byte, mv: Move, less: nat, more: nat)
    requires s.Running? && less <= more
    ensures Result(s, c, mv, less).Outside? || Result(s, c, mv, less) == Result(s, c, mv, more)
  {
  }

  lemma {:induction false} RunRoom(s: Outcome, bytes: seq<Byte>, less: nat, more: nat)
    requires less <= more
    ensures Run(s, bytes, less).Outside? || Run(s, bytes, less) == Run(s, bytes, more)
  {
    if bytes != [] {
      var front, c := bytes[..|bytes| - 1], bytes[|bytes| - 1];
      RunRoom(s, front, less, more);
      var t := Run(s, front, less);
      if t.Running? {
        ResultRoom(t, c, Next(t.p, c), less, more);
      }
    }
  }

  /** What bytes mean after `start`, when the headers leave room for a delivery in `pieces` pieces. Lemma MeaningIs
      opens the definition. */
  function Meaning(start: Outcome, bytes: seq<Byte>, pieces: nat, fold: nat := 3): Outcome
    requires pieces < MaxHeaderSize
  {
    if fold > 0 then Meaning(start, bytes, pieces, fold - 1)
    else Run(start, bytes, MaxHeaderSize - 1 - pieces)
  }

  lemma {:induction false} MeaningIs(start: Outcome, bytes: seq<Byte>, pieces: nat, fold: nat := 3)
    requires pieces < MaxHeaderSize
    ensures Meaning(start, bytes, pieces, fold) == Run(start, bytes, MaxHeaderSize - 1 - pieces)
  {
    if fold > 0 {
      MeaningIs(start, bytes, pieces, fold - 1);
    }
  }

  lemma MeaningRoom(start: Outcome, bytes: seq<Byte>, pieces: nat, most: nat)
    requires pieces <= most < MaxHeaderSize
    ensures Meaning(start, bytes, most).Outside? || Meaning(start, bytes, most) == Meaning(start, bytes, pieces)
  {
    MeaningIs(start, bytes, most);
    MeaningIs(start, bytes, pieces);
    RunRoom(start, bytes, MaxHeaderSize - 1 - most, MaxHeaderSize - 1 - pieces);
  }

  ghost predicate Pieces(xs: seq<seq<Byte>>, n: nat) {
    |xs| <= n < MaxHeaderSize && forall i :: 0 <= i < |xs| ==> xs[i] != []
  }

  ghost predicate Divides(xs: seq<seq<Byte>>, bytes: seq<Byte>, n: nat) {
    Pieces(xs, n) && Joint(xs) == bytes
  }

  /** Every byte but the last is read, and the last is one that only some divisions check. */
  ghost predicate OpensAtEnd(start: Outcome, bytes: seq<Byte>, n: nat)
    requires n < MaxHeaderSize
  {
    bytes != [] && Meaning(start, bytes[..|bytes| - 1], n).Running? && Meaning(start, bytes, n).Open?
  }

  /** What a division leaves: what the bytes mean, or, where their last byte is one that only some divisions
      check, whether this one lets it pass. */
  datatype Verdict = Known(t: Outcome) | Passed | Refused

  ghost function VerdictOf(start: Outcome, xs: seq<seq<Byte>>, n: nat): Verdict
    requires Pieces(xs, n)
  {
    if OpensAtEnd(start, Joint(xs), n) then if xs != [] && |xs[|xs| - 1]| == 1 then Refused else Passed
    else Known(Meaning(start, Joint(xs), n))
  }

  /** The parser and its request hold what the verdict says. */
  ghost predicate Meets(p: RequestParser, v: Verdict)
    reads p, p.request
  {
    match v
    case Passed => p.error.None?
    case Refused => p.error == Some(InvalidHeaderToken)
    case Known(t) => p.Agrees(t, MaxHeaderSize)
  }

  /** A parser in the state `start`. */
  ghost predicate At(p: RequestParser, start: Outcome)
    reads p, p.request
  {
    p.Valid() && start.Running? && p.Agrees(start, 0)
  }

  /** One piece after those before it. */
  method AddPiece(p: RequestParser, piece: seq<Byte>, ghost start: Outcome, ghost before: seq<Byte>, ghost n: nat,
      ghost over: nat)
    requires p.Valid() && piece != [] && over < n < MaxHeaderSize && p.Agrees(Meaning(start, before, n), over)
    modifies p, p.request
    ensures p.Valid() && p.Agrees(Meaning(start, before + piece, n), over + 1)
    ensures OpensAtEnd(start, before + piece, n)
      ==> if |piece| == 1 then p.error == Some(InvalidHeaderToken) else p.error.None?
  {
    ghost var room, s := MaxHeaderSize - 1 - n, Meaning(start, before, n);
    MeaningSplit(start, before, piece, n);
    LastOpens(start, before, piece, n);
    p.AddData(piece, room, s, over);
  }

  lemma MeaningSplit(start: Outcome, a: seq<Byte>, b: seq<Byte>, n: nat)
    requires n < MaxHeaderSize
    ensures Meaning(start, a + b, n) == Run(Meaning(start, a, n), b, MaxHeaderSize - 1 - n)
  {
    MeaningIs(start, a + b, n);
    MeaningIs(start, a, n);
    FoldAppend(Stepper(MaxHeaderSize - 1 - n), start, a, b);
  }

  lemma LastOpens(start: Outcome, before: seq<Byte>, piece: seq<Byte>, n: nat)
    requires n < MaxHeaderSize && piece != []
    ensures var s := Meaning(start, before, n);
      OpensAtEnd(start, before + piece, n) ==> s.Running? && OpensLast(Stepper(MaxHeaderSize - 1 - n), s, piece)
  {
    var whole, front := before + piece, piece[..|piece| - 1];
    assert whole[..|whole| - 1] == before + front;
    MeaningSplit(start, before, piece, n);
    MeaningSplit(start, before, front, n);
    if !Meaning(start, before, n).Running? {
      StoppedStays(Meaning(start, before, n), front, MaxHeaderSize - 1 - n);
    }
  }

  lemma {:induction false} StoppedStays(s: Outcome, bytes: seq<Byte>, room: nat)
    requires !s.Running?
    ensures Run(s, bytes, room) == s
  {
    if bytes != [] {
      StoppedStays(s, bytes[..|bytes| - 1], room);
    }
  }

  /** Delivering pieces leaves what the verdict on this division says. */
  method Deliver(p: RequestParser, xs: seq<seq<Byte>>, ghost start: Outcome, ghost n: nat)
    requires At(p, start) && Pieces(xs, n)
    modifies p, p.request
    ensures p.Valid() && Meets(p, VerdictOf(start, xs, n))
  {
    var i := 0;
    MeaningIs(start, [], n);
    FoldNothing(Stepper(MaxHeaderSize - 1 - n), start);
    assert xs[..0] == [];
    while i < |xs|
      invariant 0 <= i <= |xs| && p.Valid() && p.Agrees(Meaning(start, Joint(xs[..i]), n), i)
      invariant OpensAtEnd(start, Joint(xs[..i]), n) ==> i > 0 && if |xs[i
        - 1]| == 1 then p.error == Some(InvalidHeaderToken) else p.error.None?
    {
      assert xs[..i + 1] == xs[..i] + [xs[i]];
      JointSnoc(xs[..i], xs[i]);
      AddPiece(p, xs[i], start, Joint(xs[..i]), n, i);
      i := i + 1;
    }
    assert xs[..i] == xs;
  }

  /** The same bytes in any two divisions: the same error, or else the same parser fields and the same url, headers, body
      and completion, unless a byte of a header value is one that only some divisions check. */
  method TwoSplits(a: RequestParser, b: RequestParser, xs: seq<seq<Byte>>, ys: seq<seq<Byte>>,
                   ghost start: Outcome, ghost n: nat)
    requires a != b && a.request != b.request && At(a, start) && At(b, start)
    requires Pieces(xs, n) && Pieces(ys, n) && Joint(xs) == Joint(ys)
    modifies a, a.request, b, b.request
    ensures var t := Meaning(start, Joint(xs), n); !t.Outside? && !t.Open? ==>
      && a.error == b.error
      && (a.error.None? ==> a.parser == b.parser && a.request.Held() == b.request.Held())
  {
    Deliver(a, xs, start, n);
    Deliver(b, ys, start, n);
  }

  // When divisions may differ

  lemma MeaningNext(start: Outcome, bytes: seq<Byte>, k: nat, n: nat)
    requires n < MaxHeaderSize && k < |bytes|
    ensures Meaning(start, bytes[..k + 1], n) == HttpRun.Step(Meaning(start, bytes[..k], n), bytes[k], MaxHeaderSize - 1 - n)
  {
    MeaningIs(start, bytes[..k + 1], n);
    MeaningIs(start, bytes[..k], n);
    FoldNext(Stepper(MaxHeaderSize - 1 - n), start, bytes, k);
  }

  /** Byte k is no header character, and it comes right behind a byte that the search for the end of a value runs over:
      one read in a value that is not being matched. */
  ghost predicate OpenByte(start: Outcome, bytes: seq<Byte>, n: nat, k: nat)
    requires n < MaxHeaderSize && 1 <= k < |bytes|
  {
    var s, t := Meaning(start, bytes[..k - 1], n), Meaning(start, bytes[..k], n);
    && s.Running? && s.p.state.Value? && s.p.headerState.General? && bytes[k - 1] != CR && bytes[k - 1] != LF
    && t.Running? && t.nread < MaxHeaderSize - 1 - n && !IsHeaderChar(bytes[k])
  }

  lemma ScannedStep(s: Outcome, c: Byte, room: nat)
    requires s.Running? && HttpRun.Step(s, c, room).Running?
    ensures HttpRun.Step(s, c, room).scanned == Scans(s.p, c)
  {
  }

  lemma ScannedValue(s: Outcome, c: Byte, room: nat)
    requires s.Running? && Scans(s.p, c) && HttpRun.Step(s, c, room).Running?
    ensures HttpRun.Step(s, c, room).p.state.Value? && HttpRun.Step(s, c, room).p.headerState.General?
  {
  }

  lemma UncheckedOpens(s: Outcome, c: Byte, room: nat)
    requires Unchecked(s, c) && s.nread < room
    ensures HttpRun.Step(s, c, room).Open?
  {
  }

  /** Up to the first byte that leads there, the machine runs. */
  lemma {:induction false} FirstOpen(start: Outcome, bytes: seq<Byte>, n: nat) returns (k: nat)
    requires n < MaxHeaderSize && start.Running? && !start.scanned && Meaning(start, bytes, n).Open?
    ensures 1 <= k < |bytes| && Meaning(start, bytes[..k], n).Running? && Meaning(start, bytes[..k + 1], n).Open?
    ensures OpenByte(start, bytes, n, k)
    decreases |bytes|
  {
    MeaningIs(start, [], n);
    FoldNothing(Stepper(MaxHeaderSize - 1 - n), start);
    var last := |bytes| - 1;
    assert bytes != [] && bytes[..last + 1] == bytes;
    MeaningNext(start, bytes, last, n);
    var front, t := bytes[..last], Meaning(start, bytes[..last], n);
    if t.Running? {
      k := last;
      OpensBy(t, bytes[last], MaxHeaderSize - 1 - n);
      assert k != 0 by { assert bytes[..0] == []; }
      BehindScanned(start, bytes, n, k);
    } else {
      k := FirstOpen(start, front, n);
      assert front[..k] == bytes[..k] && front[..k + 1] == bytes[..k + 1] && front[..k - 1] == bytes[..k - 1];
    }
  }

  lemma BehindScanned(start: Outcome, bytes: seq<Byte>, n: nat, k: nat)
    requires n < MaxHeaderSize && 1 <= k < |bytes|
    requires var t := Meaning(start, bytes[..k], n); t.Running? && t.scanned && t.nread < MaxHeaderSize - 1 - n
    requires !IsHeaderChar(bytes[k])
    ensures OpenByte(start, bytes, n, k)
  {
    var s := Meaning(start, bytes[..k - 1], n);
    MeaningNext(start, bytes, k - 1, n);
    ScannedStep(s, bytes[k - 1], MaxHeaderSize - 1 - n);
  }

  /** The condition in terms of the bytes: some byte of a value is no header character and comes behind one that the
      search runs over. */
  lemma OpenMeans(start: Outcome, bytes: seq<Byte>, n: nat)
    requires n < MaxHeaderSize && start.Running? && !start.scanned
    ensures Meaning(start, bytes, n).Open? <==> exists k :: 1 <= k < |bytes| && OpenByte(start, bytes, n, k)
  {
    if Meaning(start, bytes, n).Open? {
      var k := FirstOpen(start, bytes, n);
    }
    forall k | 1 <= k < |bytes| && OpenByte(start, bytes, n, k)
      ensures Meaning(start, bytes, n).Open?
    {
      var room := MaxHeaderSize - 1 - n;
      var s, t := Meaning(start, bytes[..k - 1], n), Meaning(start, bytes[..k], n);
      MeaningNext(start, bytes, k - 1, n);
      MeaningNext(start, bytes, k, n);
      ScannedStep(s, bytes[k - 1], room);
      ScannedValue(s, bytes[k - 1], room);
      UncheckedOpens(t, bytes[k], room);
      OpenStays(start, bytes, n, k + 1);
    }
  }

  lemma OpenStays(start: Outcome, bytes: seq<Byte>, n: nat, k: nat)
    requires n < MaxHeaderSize && k <= |bytes| && !Meaning(start, bytes[..k], n).Running?
    ensures Meaning(start, bytes, n) == Meaning(start, bytes[..k], n)
  {
    assert bytes == bytes[..k] + bytes[k..];
    MeaningSplit(start, bytes[..k], bytes[k..], n);
    StoppedStays(Meaning(start, bytes[..k], n), bytes[k..], MaxHeaderSize - 1 - n);
  }

  lemma JointOne(x: seq<Byte>)
    ensures Joint([x]) == x
  {
    assert [x][1..] == [];
  }

  lemma JointTwo(x: seq<Byte>, y: seq<Byte>)
    ensures Joint([x, y]) == x + y
  {
    assert [x, y][1..] == [y];
    JointOne(y);
  }

  /** Every two divisions of every prefix leave the same. */
  ghost predicate SplitsAgree(start: Outcome, bytes: seq<Byte>, n: nat)
    requires n < MaxHeaderSize
  {
    forall k: nat, xs, ys :: k <= |bytes| && Divides(xs, bytes[..k], n) && Divides(ys, bytes[..k], n) ==>
      VerdictOf(start, xs, n) == VerdictOf(start, ys, n)
  }

  /** Split invariance, exactly: all divisions of all prefixes leave the same if and only if no byte is one that only some
      divisions check. */
  lemma SplitExactly(start: Outcome, bytes: seq<Byte>, n: nat)
    requires 2 <= n < MaxHeaderSize && start.Running? && !start.scanned && !Meaning(start, bytes, n).Outside?
    ensures SplitsAgree(start, bytes, n) <==> !Meaning(start, bytes, n).Open?
  {
    if Meaning(start, bytes, n).Open? {
      var k := FirstOpen(start, bytes, n);
      var prefix := bytes[..k + 1];
      assert prefix[..k] == bytes[..k] && prefix == bytes[..k] + [bytes[k]];
      var whole, cut := [prefix], [bytes[..k], [bytes[k]]];
      JointOne(prefix);
      JointTwo(bytes[..k], [bytes[k]]);
      assert Divides(whole, bytes[..k + 1], n) && Divides(cut, bytes[..k + 1], n);
      assert VerdictOf(start, whole, n) == Passed && VerdictOf(start, cut, n) == Refused;
    } else {
      forall k: nat, xs, ys | k <= |bytes| && Divides(xs, bytes[..k], n) && Divides(ys, bytes[..k], n)
        ensures VerdictOf(start, xs, n) == VerdictOf(start, ys, n)
      {
        if Meaning(start, bytes[..k], n).Open? {
          OpenStays(start, bytes, n, k);
        }
      }
    }
  }

  /** Where the last byte is such a byte, a parser that gets it in one piece with the byte before takes it, and a parser that
      gets it at the start of a piece refuses it. */
  method Disagree(a: RequestParser, b: RequestParser, front: seq<Byte>, last: Byte, ghost start: Outcome, ghost n: nat)
    requires a != b && a.request != b.request && At(a, start) && At(b, start) && front != []
    requires 2 <= n < MaxHeaderSize && OpensAtEnd(start, front + [last], n)
    modifies a, a.request, b, b.request
    ensures a.error.None? && b.error == Some(InvalidHeaderToken)
  {
    var whole: seq<seq<Byte>>, cut: seq<seq<Byte>> := [front + [last]], [front, [last]];
    JointOne(front + [last]);
    JointTwo(front, [last]);
    Deliver(a, whole, start, n);
    Deliver(b, cut, start, n);
  }
}
