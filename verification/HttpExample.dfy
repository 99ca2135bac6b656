/** A request on which two divisions of the same bytes disagree. */
module HttpExample {
  import opened Bytes
  import opened HttpParser
  import opened HttpRequest
  import opened HttpRun
  import opened HttpExecute
  import opened HttpConnection
  import opened HttpSplit

  /** GET / HTTP/1.1, a line end, and a header A with a value that begins with xy. */
  const Request: seq<Byte> := [
    71, 69, 84, 32, 47, 32, 72, 84, 84, 80, 47, 49, 46, 49, 13, 10, 65, 58, 32, 120, 121
  ]

  const Named: Parser := Initial.(contentLength := MaxLength, verb := GET)
  const Versioned: Parser := Named.(index := 4, major := 1, minor := 1)

  /** The parser's fields after i bytes of the request. */
  function Fields(i: nat): Parser {
    match i
    case 0 => Initial
    case 1 => Named.(index := 1, state := ReqMethod)
    case 2 => Named.(index := 2, state := ReqMethod)
    case 3 => Named.(index := 3, state := ReqMethod)
    case 4 => Named.(index := 4, state := SpacesBeforeUrl)
    case 5 => Named.(index := 4, state := Path)
    case 6 => Named.(index := 4, state := HttpStart)
    case 7 => Named.(index := 4, state := HttpH)
    case 8 => Named.(index := 4, state := HttpHT)
    case 9 => Named.(index := 4, state := HttpHTT)
    case 10 => Named.(index := 4, state := HttpHTTP)
    case 11 => Named.(index := 4, state := HttpMajor)
    case 12 => Versioned.(minor := 0, state := HttpDot)
    case 13 => Versioned.(minor := 0, state := HttpMinor)
    case 14 => Versioned.(state := HttpEnd)
    case 15 => Versioned.(state := LineAlmostDone)
    case 16 => Versioned.(state := FieldStart)
    case 17 => Versioned.(index := 0, state := Field)
    case 18 => Versioned.(index := 0, state := DiscardWs)
    case 19 => Versioned.(index := 0, state := DiscardWs)
    case _ => Versioned.(index := 0, state := Value)
  }

  /** After i bytes of the request, none of which was read in a value. */
  ghost predicate Read(start: Outcome, data: seq<Byte>, n: nat, i: nat)
    requires n < MaxHeaderSize && i <= |data|
  {
    var s := Meaning(start, data[..i], n);
    s.Running? && s.p == Fields(i) && s.nread == i && !s.scanned
  }

  lemma ByteRead(start: Outcome, data: seq<Byte>, i: nat, n: nat)
    requires n <= 2 && i < 20 && Request <= data && Read(start, data, n, i)
    requires !Fields(i).state.Value? && ParsingHeader(Fields(i).state)
    requires var mv := Next(Fields(i), Request[i]); mv.Go? && mv.next == Fields(i + 1) && !mv.exit && !mv.reset
    ensures Read(start, data, n, i + 1)
  {
    assert data[i] == Request[i] && Request[i] != 0;
    MeaningNext(start, data, i, n);
    MoveRead(Meaning(start, data[..i], n), data[i], Next(Fields(i), data[i]), MaxHeaderSize - 1 - n);
  }

  lemma MoveRead(s: Outcome, c: Byte, mv: Move, room: nat)
    requires s.Running? && mv == Next(s.p, c) && mv.Go? && !mv.exit && !mv.reset && c != 0 && s.nread < room
    requires !s.p.state.Value? && ParsingHeader(s.p.state)
    ensures var t := HttpRun.Step(s, c, room); t.Running? && t.p == mv.next && t.nread == s.nread + 1 && !t.scanned
  {
  }

  /** Bytes 0 to 4: the method and the path. */
  lemma Moves0(start: Outcome, data: seq<Byte>, n: nat)
    requires n <= 2 && Request <= data && Read(start, data, n, 0)
    ensures Read(start, data, n, 5)
  {
    ByteRead(start, data, 0, n);
    ByteRead(start, data, 1, n);
    ByteRead(start, data, 2, n);
    ByteRead(start, data, 3, n);
    assert Among(47, "/*") by { assert "/*"[0] as int == 47; }
    ByteRead(start, data, 4, n);
  }

  /** Bytes 5 to 10: the name of the protocol. */
  lemma Moves5(start: Outcome, data: seq<Byte>, n: nat)
    requires n <= 2 && Request <= data && Read(start, data, n, 5)
    ensures Read(start, data, n, 8)
  {
    ByteRead(start, data, 5, n);
    assert Among(72, "HR") by { assert "HR"[0] as int == 72; }
    ByteRead(start, data, 6, n);
    ByteRead(start, data, 7, n);
  }

  lemma Moves8(start: Outcome, data: seq<Byte>, n: nat)
    requires n <= 2 && Request <= data && Read(start, data, n, 8)
    ensures Read(start, data, n, 11)
  {
    ByteRead(start, data, 8, n);
    ByteRead(start, data, 9, n);
    ByteRead(start, data, 10, n);
  }

  /** Bytes 11 to 15: the version and the line end. */
  lemma Moves11(start: Outcome, data: seq<Byte>, n: nat)
    requires n <= 2 && Request <= data && Read(start, data, n, 11)
    ensures Read(start, data, n, 16)
  {
    ByteRead(start, data, 11, n);
    ByteRead(start, data, 12, n);
    ByteRead(start, data, 13, n);
    ByteRead(start, data, 14, n);
    ByteRead(start, data, 15, n);
  }

  /** Bytes 16 to 19: the name of the header and the first byte of its value. */
  lemma Moves16(start: Outcome, data: seq<Byte>, n: nat)
    requires n <= 2 && Request <= data && Read(start, data, n, 16)
    ensures Read(start, data, n, 20)
  {
    ByteRead(start, data, 16, n);
    ByteRead(start, data, 17, n);
    ByteRead(start, data, 18, n);
    ByteRead(start, data, 19, n);
  }

  /** The request, and then byte 1, which is no header character. */
  lemma ByteOneOpens(start: Outcome, n: nat)
    requires n <= 2 && start == Running(Initial, 0, Empty, false)
    ensures OpensAtEnd(start, Request + [1], n)
  {
    var data := Request + [1];
    assert data[..0] == [];
    MeaningIs(start, [], n);
    Moves0(start, data, n);
    Moves5(start, data, n);
    Moves8(start, data, n);
    Moves11(start, data, n);
    Moves16(start, data, n);
    LastMoves(start, data, n);
    assert data[..21] == Request && data[..22] == data;
  }

  lemma LastMoves(start: Outcome, data: seq<Byte>, n: nat)
    requires n <= 2 && data == Request + [1] && Read(start, data, n, 20)
    ensures Meaning(start, data[..21], n).Running? && Meaning(start, data[..22], n).Open?
  {
    var room := MaxHeaderSize - 1 - n;
    var s := Meaning(start, data[..20], n);
    assert data[20] == 121 && data[21] == 1;
    MeaningNext(start, data, 20, n);
    MeaningNext(start, data, 21, n);
    var t := Meaning(start, data[..21], n);
    ScannedStep(s, 121, room);
    ScannedValue(s, 121, room);
    UncheckedOpens(t, 1, room);
  }

  /** Why header value bytes must be header characters: sent in one piece this request is taken, sent in two pieces of
      which the second is its last byte it is refused. */
  method CheckDependsOnSplit() returns (together: Option<Error>, apart: Option<Error>)
    ensures together.None? && apart == Some(InvalidHeaderToken)
  {
    var a := new RequestParser();
    var b := new RequestParser();
    ghost var start := Running(Initial, 0, Empty, false);
    ByteOneOpens(start, 2);
    Disagree(a, b, Request, 1, start, 2);
    together, apart := a.error, b.error;
  }
}
