/** How http_parser_execute's own state (fields, marks, request) stands to the
    byte-at-a-time meaning, and how each kind of step keeps that relation. */
module HttpSync {
  import opened Bytes
  import opened HttpParser
  import opened HttpRequest
  import opened HttpRun
  import opened HttpExecute
  import opened Folds

  /** What holds of the parser's own state in every run, whatever the input. */
  ghost predicate Intact(f: Parser, n: int, r: Contents, m: Marks, i: int) {
    && Sound(f) && (f.state.ChunkSizeStart? ==> n == 0)
    && Paired(r) && (Named(f.state) ==> r.index < |r.headers|)
    && MarksFit(m, f.state, i)
  }

  /** The state agrees with the machine's outcome s after i bytes; the header count may
      be ahead by `over`. */
  ghost predicate Synced(f: Parser, n: int, r: Contents, m: Marks, data: seq<Byte>, i: nat, s: Outcome, over: nat)
    requires i <= |data| && Intact(f, n, r, m, i)
  {
    && !s.Failed?
    && (s.Running? ==>
          && s.p == f && s.nread <= n <= s.nread + over
          && TextFragment(m, KindOf(f.state), data, i)
          && s.r == Joined(r, m, KindOf(f.state), data, i))
  }

  // Steps outside the inner loops

  function Flushed(m: Marks, mv: Move): Marks
    requires mv.Go?
  {
    if mv.flush.Some? then Set(m, mv.flush.value, -1) else m
  }

  function Marked(m: Marks, mv: Move, i: nat): Marks
    requires mv.Go?
  {
    if mv.take.Some? && At(m, mv.take.value) < 0 then Set(m, mv.take.value, i) else m
  }

  /** The request after the callbacks of a move. */
  ghost function CalledBack(r: Contents, m: Marks, mv: Move, data: seq<Byte>, i: nat): Contents
    requires mv.Go? && i <= |data| && forall k: Kind :: At(m, k) <= i
  {
    var r1 := Joined(r, m, mv.flush, data, i);
    var r2 := if mv.emptyValue then Deliver(r1, ValueData, []) else r1;
    if mv.complete then Completed(r2, mv.next.verb) else r2
  }

  /** A byte inside a fragment that goes on. */
  lemma FragmentGrows(r: Contents, m: Marks, k: Kind, data: seq<Byte>, i: nat)
    requires i < |data| && (forall j: Kind :: At(m, j) <= i) && At(m, k) >= 0
    requires Ready(r, k) && k != BodyData && NoNul(data[At(m, k)..i])
    ensures Joined(r, m, Some(k), data, i + 1) == Deliver(Joined(r, m, Some(k), data, i), k, [data[i]])
    ensures data[i] != 0 ==> NoNul(data[At(m, k)..i + 1])
  {
    var a := At(m, k);
    var fragment, more := data[a..i], data[a..i + 1];
    SliceSnoc(data, a, i);
    DeliverTwice(r, k, fragment, [data[i]]);
    NoNulSnoc(fragment, data[i], more);
  }

  lemma NoNulSnoc(fragment: seq<Byte>, c: Byte, more: seq<Byte>)
    requires NoNul(fragment) && more == fragment + [c]
    ensures c != 0 ==> NoNul(more)
  {
  }

  lemma SingleIntact(f: Parser, n: int, r: Contents, m: Marks, data: seq<Byte>, i: nat, c: Byte, mv: Move, n': int)
    requires i < |data| && Intact(f, n, r, m, i) && !f.state.ChunkData? && !f.state.BodyIdentity?
    requires mv.Go? && Good(f.state, c, mv)
    requires mv.next.state.ChunkSizeStart? ==> n' == 0
    ensures Intact(mv.next, n', CalledBack(r, m, mv, data, i), Marked(Flushed(m, mv), mv, i), i + 1)
  {
    var r1 := Joined(r, m, mv.flush, data, i);
    if mv.flush.Some? && At(m, mv.flush.value) >= 0 {
      var k := mv.flush.value;
      DeliverSettles(r, k, data[At(m, k)..i]);
    }
    if mv.emptyValue {
      DeliverSettles(r1, ValueData, []);
    }
  }

  lemma SingleJoined(f: Parser, n: int, r: Contents, m: Marks, data: seq<Byte>, i: nat, mv: Move)
    requires i < |data| && Intact(f, n, r, m, i) && !f.state.ChunkData? && !f.state.BodyIdentity?
    requires mv.Go? && Good(f.state, data[i], mv)
    requires TextFragment(m, KindOf(f.state), data, i)
    requires mv.take == Some(ValueData) ==> data[i] != 0
    ensures var m' := Marked(Flushed(m, mv), mv, i); var k' := KindOf(mv.next.state);
            && (forall j: Kind :: At(m', j) <= i + 1)
            && TextFragment(m', k', data, i + 1)
            && Joined(CalledBack(r, m, mv, data, i), m', k', data, i + 1)
               == Effect(Joined(r, m, KindOf(f.state), data, i), mv, data[i])
  {
    var k := KindOf(f.state);
    if k.Some? {
      if KindOf(mv.next.state) == k {
        FragmentGrows(r, m, k.value, data, i);
      }
    } else {
      assert data[i..i + 1] == [data[i]];
    }
  }

  /** A fragment that an inner loop has carried from i to j. */
  lemma LoopJoined(f: Parser, f': Parser, n: int, n': int, r: Contents, m: Marks, k: Kind, data: seq<Byte>, i: nat, j: nat,
                   s0: Outcome, s: Outcome, over: nat)
    requires i <= j <= |data| && Intact(f, n, r, m, i) && Synced(f, n, r, m, data, i, s0, over)
    requires KindOf(f.state) == Some(k) && k != BodyData && f'.state == f.state && Sound(f')
    requires Ran(s0, s, f', k, data[i..j]) && n' == n + (j - i)
    ensures Intact(f', n', r, m, j) && Synced(f', n', r, m, data, j, s, over)
  {
    if s.Running? {
      var a := At(m, k);
      DeliverTwice(r, k, data[a..i], data[i..j]);
      SliceJoin(data, a, i, j);
    }
  }

  /** An inner loop may begin where the state is synced. */
  lemma LoopEntered(f: Parser, n: int, r: Contents, m: Marks, k: Kind, data: seq<Byte>, i: nat, s0: Outcome, over: nat)
    requires i <= |data| && Intact(f, n, r, m, i) && Synced(f, n, r, m, data, i, s0, over)
    requires KindOf(f.state) == Some(k) && (k == FieldData || k == ValueData)
    ensures Entered(s0, f, k)
  {
    if s0.Running? {
      DeliverSettles(r, k, data[At(m, k)..i]);
    }
  }

  /** Body bytes from i to j: the mark is set on the first of them. */
  lemma BodyJoined(r: Contents, m: Marks, data: seq<Byte>, i: nat, j: nat)
    requires i <= j <= |data| && forall k: Kind :: At(m, k) <= i
    ensures var a := if m.body < 0 then i else m.body;
            BodyAdded(Joined(r, m, Some(BodyData), data, i), data[i..j]) == BodyAdded(r, data[a..j])
  {
    var at := At(m, BodyData);
    if at >= 0 {
      assert data[m.body..i] + data[i..j] == data[m.body..j];
      assert (r.data + data[m.body..i]) + data[i..j] == r.data + (data[m.body..i] + data[i..j]);
    }
  }

  /** A body that has not ended, or a chunk whose last byte has been read. */
  lemma BodyPart(f: Parser, f': Parser, n: int, r: Contents, m: Marks, data: seq<Byte>, i: nat, j: nat, s: Outcome,
      s': Outcome, over: nat)
    requires i < j <= |data| && Intact(f, n, r, m, i) && Synced(f, n, r, m, data, i, s, over)
    requires f.state.ChunkData? || f.state.BodyIdentity?
    requires Sound(f') && (f'.state == f.state || f'.state.ChunkDataAlmostDone?)
    requires if s.Running? then s' == Running(f', s.nread, BodyAdded(s.r, data[i..j]), false) else s' == s
    ensures var m' := if m.body < 0 then m.(body := i) else m;
            Intact(f', n, r, m', j) && Synced(f', n, r, m', data, j, s', over)
  {
    var m' := if m.body < 0 then m.(body := i) else m;
    assert At(m, BodyData) == m.body;
    assert forall k: Kind :: k != BodyData ==> At(m', k) == At(m, k);
    BodyJoined(r, m, data, i, j);
  }

  /** An identity body whose last byte has been read. */
  lemma BodyWhole(f: Parser, n: int, r: Contents, m: Marks, data: seq<Byte>, i: nat, j: nat, s: Outcome, s': Outcome,
      over: nat)
    requires i < j <= |data| && Intact(f, n, r, m, i) && Synced(f, n, r, m, data, i, s, over)
    requires f.state.BodyIdentity?
    requires var t := f.(contentLength := 0, state := StartReq);
             if s.Running? then s' == Running(t, s.nread, Completed(BodyAdded(s.r, data[i..j]), f.verb), false) else s' == s
    ensures var a := if m.body < 0 then i else m.body; var t := f.(contentLength := 0, state := StartReq);
            var r' := Completed(BodyAdded(r, data[a..j]), f.verb); var m' := m.(body := -1);
            Intact(t, n, r', m', j) && Synced(t, n, r', m', data, j, s', over)
  {
    var m' := m.(body := -1);
    assert At(m, BodyData) == m.body;
    assert forall k: Kind :: k != BodyData ==> At(m', k) == At(m, k);
    BodyJoined(r, m, data, i, j);
  }
}
