/** The request side of http_parser.c, one byte at a time: the transition that
    http_parser_execute makes on each byte, and what must be done with the marks. The
    build compiles the non-strict variant (HTTP_PARSER_STRICT is 0). */
module HttpParser {
  import opened Bytes

  const CR: int := 13
  const LF: int := 10

  /** ULLONG_MAX, the sentinel for "no Content-Length". */
  const MaxLength: nat := 0xFFFF_FFFF_FFFF_FFFF

  datatype Option<T> = None | Some(value: T)

  datatype Error =
    | InvalidMethod | InvalidUrl | InvalidConstant | InvalidVersion | LfExpected
    | InvalidHeaderToken | InvalidContentLength | UnexpectedContentLength
    | InvalidChunkSize | HeaderOverflow | InvalidEofState | ClosedConnection

  /** The states a request can be in. The response states are not modelled. */
  datatype State =
    | Dead | StartReq | ReqMethod | SpacesBeforeUrl
    | Schema | SchemaSlash | SchemaSlashSlash | ServerStart | Server | ServerWithAt
    | Path | QueryStart | Query | FragmentStart | Fragment
    | HttpStart | HttpH | HttpHT | HttpHTT | HttpHTTP | HttpMajor | HttpDot | HttpMinor | HttpEnd
    | LineAlmostDone
    | FieldStart | Field | DiscardWs | DiscardWsAlmostDone | DiscardLws
    | ValueStart | Value | ValueLws | HeaderAlmostDone
    | ChunkSizeStart | ChunkSize | ChunkParameters | ChunkSizeAlmostDone
    | HeadersAlmostDone | HeadersDone
    | ChunkData | ChunkDataAlmostDone | ChunkDataDone | BodyIdentity | MessageDone

  datatype HeaderState =
    | General | C | CO | CON
    | MatchingConnection | MatchingProxyConnection | MatchingContentLength
    | MatchingTransferEncoding | MatchingUpgrade
    | Connection | ContentLength | ContentLengthNum | ContentLengthWs | TransferEncoding | Upgrade
    | MatchingChunked | TokenStart | MatchingKeepAlive | MatchingClose | MatchingUpgradeToken | Token
    | Chunked | KeepAlive | Close | UpgradeToken

  datatype Method =
    | DELETE | GET | HEAD | POST | PUT | CONNECT | OPTIONS | TRACE
    | COPY | LOCK | MKCOL | MOVE | PROPFIND | PROPPATCH | SEARCH | UNLOCK | BIND | REBIND | UNBIND | ACL
    | REPORT | MKACTIVITY | CHECKOUT | MERGE
    | MSEARCH | NOTIFY | SUBSCRIBE | UNSUBSCRIBE
    | PATCH | PURGE | MKCALENDAR | LINK | UNLINK | SOURCE
    | DESCRIBE | ANNOUNCE | SETUP | PLAY | PAUSE | TEARDOWN | GET_PARAMETER | SET_PARAMETER | REDIRECT | RECORD
    | FLUSH

  /** The bits of `flags` that a request can set. */
  datatype Flags = Flags(chunked: bool, keepAlive: bool, close: bool, connectionUpgrade: bool,
                         trailing: bool, upgrade: bool, contentLength: bool)

  const NoFlags := Flags(false, false, false, false, false, false, false)

  datatype Parser = Parser(state: State, headerState: HeaderState, index: nat, flags: Flags,
                           contentLength: nat, major: int, minor: int,
                           verb: Method, upgrade: bool)

  /** http_parser_init for a request */
  const Initial := Parser(StartReq, General, 0, NoFlags, 0, 0, 0, DELETE, false)

  /** The four kinds of data a request callback receives. */
  datatype Kind = UrlData | FieldData | ValueData | BodyData

  /** What one byte does: fail, or move on. `flush` runs the callback of a mark up to,
      not including, this byte; `emptyValue` reports an empty header value; `take` sets
      the mark on this byte; `complete` reports the end of the message; `exit` leaves the
      parser in the middle of the buffer because another protocol follows; `reset` clears
      the count of header bytes. */
  datatype Move =
    | Fail(error: Error)
    | Go(next: Parser, flush: Option<Kind>, emptyValue: bool, take: Option<Kind>, complete: bool, exit: bool,
         reset: bool)

  function Silent(p: Parser): Move { Go(p, None, false, None, false, false, false) }
  function Resetting(p: Parser): Move { Go(p, None, false, None, false, false, true) }
  function Taking(p: Parser, k: Kind): Move { Go(p, None, false, Some(k), false, false, false) }
  function Flushing(p: Parser, k: Kind): Move { Go(p, Some(k), false, None, false, false, false) }
  function Completing(p: Parser, exit: bool, reset: bool): Move { Go(p, None, false, None, true, exit, reset) }

  // Character classes

  function Lower(c: Byte): Byte { if (c / 32) % 2 == 0 then c + 32 else c }

  predicate IsUpper(c: int) { 'A' as int <= c <= 'Z' as int }
  predicate IsAlpha(c: int) { IsUpper(c) || 'a' as int <= c <= 'z' as int }
  predicate IsNum(c: int) { '0' as int <= c <= '9' as int }

  predicate Among(c: int, s: string) { exists i :: 0 <= i < |s| && c == s[i] as int }

  /** STRICT_TOKEN: the lower-cased token character, or 0. */
  function StrictToken(c: Byte): Byte {
    if IsUpper(c) then c + 32
    else if IsAlpha(c) || IsNum(c) || Among(c, "!#$%&'*+-.^_`|~") then c
    else 0
  }

  /** TOKEN, which also lets a blank through. */
  function TokenOf(c: Byte): Byte { if c == ' ' as int then c else StrictToken(c) }

  predicate IsUserinfo(c: Byte) { IsAlpha(c) || IsNum(c) || Among(c, "-_.!~*'()%;:&=+$,") }

  predicate IsUrlChar(c: Byte) {
    c == 9 || c == 12 || 33 <= c <= 34 || 36 <= c <= 62 || 64 <= c <= 126 || 128 <= c
  }

  predicate IsHeaderChar(c: Byte) { c == CR || c == LF || c == 9 || (31 < c && c != 127) }

  /** unhex, with -1 for other characters */
  function Unhex(c: Byte): int {
    if IsNum(c) then c - '0' as int
    else if 'a' as int <= c <= 'f' as int then c - 'a' as int + 10
    else if 'A' as int <= c <= 'F' as int then c - 'A' as int + 10
    else -1
  }

  /** A C string read at an index; its terminator is 0. */
  function CharAt(s: string, i: nat): int { if i < |s| then s[i] as int else 0 }

  /** PARSING_HEADER */
  predicate ParsingHeader(s: State) {
    !s.ChunkData? && !s.ChunkDataAlmostDone? && !s.ChunkDataDone? && !s.BodyIdentity? && !s.MessageDone?
  }

  // The request line

  /** The method a request line can start with. */
  function FirstMethod(c: Byte): Option<Method> {
    match c as char
    case 'A' => Some(ACL)
    case 'B' => Some(BIND)
    case 'C' => Some(CONNECT)
    case 'D' => Some(DELETE)
    case 'F' => Some(FLUSH)
    case 'G' => Some(GET)
    case 'H' => Some(HEAD)
    case 'L' => Some(LOCK)
    case 'M' => Some(MKCOL)
    case 'N' => Some(NOTIFY)
    case 'O' => Some(OPTIONS)
    case 'P' => Some(POST)
    case 'R' => Some(REPORT)
    case 'S' => Some(SUBSCRIBE)
    case 'T' => Some(TRACE)
    case 'U' => Some(UNLOCK)
    case _ => None
  }

  function MethodString(m: Method): string {
    match m
    case DELETE => "DELETE"
    case GET => "GET"
    case HEAD => "HEAD"
    case POST => "POST"
    case PUT => "PUT"
    case CONNECT => "CONNECT"
    case OPTIONS => "OPTIONS"
    case TRACE => "TRACE"
    case COPY => "COPY"
    case LOCK => "LOCK"
    case MKCOL => "MKCOL"
    case MOVE => "MOVE"
    case PROPFIND => "PROPFIND"
    case PROPPATCH => "PROPPATCH"
    case SEARCH => "SEARCH"
    case UNLOCK => "UNLOCK"
    case BIND => "BIND"
    case REBIND => "REBIND"
    case UNBIND => "UNBIND"
    case ACL => "ACL"
    case REPORT => "REPORT"
    case MKACTIVITY => "MKACTIVITY"
    case CHECKOUT => "CHECKOUT"
    case MERGE => "MERGE"
    case MSEARCH => "M-SEARCH"
    case NOTIFY => "NOTIFY"
    case SUBSCRIBE => "SUBSCRIBE"
    case UNSUBSCRIBE => "UNSUBSCRIBE"
    case PATCH => "PATCH"
    case PURGE => "PURGE"
    case MKCALENDAR => "MKCALENDAR"
    case LINK => "LINK"
    case UNLINK => "UNLINK"
    case SOURCE => "SOURCE"
    case DESCRIBE => "DESCRIBE"
    case ANNOUNCE => "ANNOUNCE"
    case SETUP => "SETUP"
    case PLAY => "PLAY"
    case PAUSE => "PAUSE"
    case TEARDOWN => "TEARDOWN"
    case GET_PARAMETER => "GET_PARAMETER"
    case SET_PARAMETER => "SET_PARAMETER"
    case REDIRECT => "REDIRECT"
    case RECORD => "RECORD"
    case FLUSH => "FLUSH"
  }

  /** The method that takes over when a character differs from the current one. */
  function SwitchMethod(m: Method, pos: nat, c: Byte): Option<Method> {
    match (m, pos, c as char)
    case (ACL, 1, 'N') => Some(ANNOUNCE)
    case (DELETE, 2, 'S') => Some(DESCRIBE)
    case (GET, 3, '_') => Some(GET_PARAMETER)
    case (POST, 1, 'U') => Some(PUT)
    case (POST, 1, 'A') => Some(PATCH)
    case (POST, 1, 'R') => Some(PROPFIND)
    case (POST, 1, 'L') => Some(PLAY)
    case (PUT, 2, 'R') => Some(PURGE)
    case (PATCH, 2, 'U') => Some(PAUSE)
    case (CONNECT, 1, 'H') => Some(CHECKOUT)
    case (CONNECT, 2, 'P') => Some(COPY)
    case (MKCOL, 1, 'O') => Some(MOVE)
    case (MKCOL, 1, 'E') => Some(MERGE)
    case (MKCOL, 1, '-') => Some(MSEARCH)
    case (MKCOL, 2, 'A') => Some(MKACTIVITY)
    case (MKCOL, 3, 'A') => Some(MKCALENDAR)
    case (SUBSCRIBE, 1, 'E') => Some(SEARCH)
    case (SUBSCRIBE, 1, 'O') => Some(SOURCE)
    case (SEARCH, 2, 'T') => Some(SETUP)
    case (SETUP, 3, '_') => Some(SET_PARAMETER)
    case (TRACE, 1, 'E') => Some(TEARDOWN)
    case (REPORT, 2, 'B') => Some(REBIND)
    case (REPORT, 2, 'C') => Some(RECORD)
    case (REPORT, 2, 'D') => Some(REDIRECT)
    case (PROPFIND, 4, 'P') => Some(PROPPATCH)
    case (LOCK, 1, 'I') => Some(LINK)
    case (UNLOCK, 2, 'S') => Some(UNSUBSCRIBE)
    case (UNLOCK, 2, 'B') => Some(UNBIND)
    case (UNLOCK, 3, 'I') => Some(UNLINK)
    case _ => None
  }

  function OnStart(p: Parser, c: Byte): Move {
    if c == CR || c == LF then Silent(p)
    else if !IsAlpha(c) then Fail(InvalidMethod)
    else match FirstMethod(c)
      case None => Fail(InvalidMethod)
      case Some(m) =>
        Silent(p.(flags := NoFlags, contentLength := MaxLength, verb := m, index := 1, state := ReqMethod))
  }

  function OnMethod(p: Parser, c: Byte): Move {
    if c == 0 then Fail(InvalidMethod)
    else
      var expected := CharAt(MethodString(p.verb), p.index);
      if c == ' ' as int && expected == 0 then Silent(p.(state := SpacesBeforeUrl, index := p.index + 1))
      else if c == expected then Silent(p.(index := p.index + 1))
      else if IsUpper(c) || c == '-' as int || c == '_' as int then
        match SwitchMethod(p.verb, p.index, c)
        case None => Fail(InvalidMethod)
        case Some(m) => Silent(p.(verb := m, index := p.index + 1))
      else Fail(InvalidMethod)
  }

  /** parse_url_char */
  function ParseUrlChar(s: State, c: Byte): State {
    if c == ' ' as int || c == CR || c == LF then Dead
    else match s
      case SpacesBeforeUrl =>
        if Among(c, "/*") then Path else if IsAlpha(c) then Schema else Dead
      case Schema =>
        if IsAlpha(c) then Schema else if c == ':' as int then SchemaSlash else Dead
      case SchemaSlash => if c == '/' as int then SchemaSlashSlash else Dead
      case SchemaSlashSlash => if c == '/' as int then ServerStart else Dead
      case ServerWithAt => if c == '@' as int then Dead else ParseServerChar(c)
      case ServerStart => ParseServerChar(c)
      case Server => ParseServerChar(c)
      case Path =>
        if IsUrlChar(c) then Path else if c == '?' as int then QueryStart
        else if c == '#' as int then FragmentStart else Dead
      case QueryStart => ParseQueryChar(c)
      case Query => ParseQueryChar(c)
      case FragmentStart =>
        if IsUrlChar(c) || c == '?' as int then Fragment
        else if c == '#' as int then FragmentStart else Dead
      case Fragment => if IsUrlChar(c) || Among(c, "?#") then Fragment else Dead
      case _ => Dead
  }

  function ParseServerChar(c: Byte): State {
    if c == '/' as int then Path
    else if c == '?' as int then QueryStart
    else if c == '@' as int then ServerWithAt
    else if IsUserinfo(c) || Among(c, "[]") then Server
    else Dead
  }

  function ParseQueryChar(c: Byte): State {
    if IsUrlChar(c) || c == '?' as int then Query
    else if c == '#' as int then FragmentStart else Dead
  }

  /** States in which the URL is being read. */
  predicate InUrl(s: State) {
    s.Schema? || s.SchemaSlash? || s.SchemaSlashSlash? || s.ServerStart? || s.Server? || s.ServerWithAt?
    || s.Path? || s.QueryStart? || s.Query? || s.FragmentStart? || s.Fragment?
  }

  function UrlMove(p: Parser, s: State): Move {
    if s == Dead then Fail(InvalidUrl) else Taking(p.(state := s), UrlData)
  }

  function OnSpaces(p: Parser, c: Byte): Move {
    if c == ' ' as int then Silent(p)
    else UrlMove(p, ParseUrlChar(if p.verb == CONNECT then ServerStart else SpacesBeforeUrl, c))
  }

  function OnUrl(p: Parser, c: Byte): Move {
    if p.state.Schema? || p.state.SchemaSlash? || p.state.SchemaSlashSlash? || p.state.ServerStart? then
      UrlMove(p, ParseUrlChar(p.state, c))
    else if c == ' ' as int then Flushing(p.(state := HttpStart), UrlData)
    else if c == CR then Flushing(p.(state := LineAlmostDone, major := 0, minor := 9), UrlData)
    else if c == LF then Flushing(p.(state := FieldStart, major := 0, minor := 9), UrlData)
    else UrlMove(p, ParseUrlChar(p.state, c))
  }

  /** From the blank after the URL to the end of the request line. The letters of the
      protocol name are not checked in this variant. */
  function OnVersion(p: Parser, c: Byte): Move {
    match p.state
    case HttpStart =>
      if Among(c, "HR") then Silent(p.(state := HttpH))
      else if c == ' ' as int then Silent(p) else Fail(InvalidConstant)
    case HttpH => Silent(p.(state := HttpHT))
    case HttpHT => Silent(p.(state := HttpHTT))
    case HttpHTT => Silent(p.(state := HttpHTTP))
    case HttpHTTP => Silent(p.(state := HttpMajor))
    case HttpMajor =>
      if IsNum(c) then Silent(p.(state := HttpDot, major := c - '0' as int)) else Fail(InvalidVersion)
    case HttpDot => if c == '.' as int then Silent(p.(state := HttpMinor)) else Fail(InvalidVersion)
    case HttpMinor =>
      if IsNum(c) then Silent(p.(state := HttpEnd, minor := c - '0' as int)) else Fail(InvalidVersion)
    case HttpEnd =>
      if c == CR then Silent(p.(state := LineAlmostDone))
      else if c == LF then Silent(p.(state := FieldStart)) else Fail(InvalidVersion)
    case _ => if c == LF then Silent(p.(state := FieldStart)) else Fail(LfExpected)
  }

  // Headers

  /** A header name is matched against one of five words; `final` marks the full match. */
  function MatchName(p: Parser, c: Byte, word: string, final: HeaderState): Parser {
    var i := p.index + 1;
    if i > |word| || c != CharAt(word, i) then p.(index := i, headerState := General)
    else if i == |word| - 1 then p.(index := i, headerState := final)
    else p.(index := i)
  }

  /** A token character inside a header name. */
  function OnFieldToken(p: Parser, c: Byte, ch: Byte): Parser {
    match p.headerState
    case C => p.(index := p.index + 1, headerState := if c == 'o' as int then CO else General)
    case CO => p.(index := p.index + 1, headerState := if c == 'n' as int then CON else General)
    case CON =>
      p.(index := p.index + 1,
         headerState := if c == 'n' as int then MatchingConnection
                        else if c == 't' as int then MatchingContentLength else General)
    case MatchingConnection => MatchName(p, c, "connection", Connection)
    case MatchingProxyConnection => MatchName(p, c, "proxy-connection", Connection)
    case MatchingContentLength => MatchName(p, c, "content-length", ContentLength)
    case MatchingTransferEncoding => MatchName(p, c, "transfer-encoding", TransferEncoding)
    case MatchingUpgrade => MatchName(p, c, "upgrade", Upgrade)
    case General => p
    case _ => if ch != ' ' as int then p.(headerState := General) else p
  }

  function OnField(p: Parser, c: Byte): Move {
    if TokenOf(c) != 0 then Taking(OnFieldToken(p, TokenOf(c), c), FieldData)
    else if c == ':' as int then Flushing(p.(state := DiscardWs), FieldData)
    else Fail(InvalidHeaderToken)
  }

  function OnFieldStart(p: Parser, c: Byte): Move {
    if c == CR then Silent(p.(state := HeadersAlmostDone))
    else if c == LF then OnHeadersAlmostDone(p)
    else if TokenOf(c) == 0 then Fail(InvalidHeaderToken)
    else
      var h := match TokenOf(c) as char
               case 'c' => C
               case 'p' => MatchingProxyConnection
               case 't' => MatchingTransferEncoding
               case 'u' => MatchingUpgrade
               case _ => General;
      Taking(p.(index := 0, state := Field, headerState := h), FieldData)
  }

  function OnDiscardWs(p: Parser, c: Byte): Move {
    if c == ' ' as int || c == 9 then Silent(p.(state := DiscardWs))
    else if c == CR then Silent(p.(state := DiscardWsAlmostDone))
    else if c == LF then Silent(p.(state := DiscardLws))
    else OnValueStart(p, c)
  }

  function OnValueStart(p: Parser, c: Byte): Move {
    var q := p.(state := Value, index := 0);
    match p.headerState
    case Upgrade => Taking(q.(flags := p.flags.(upgrade := true), headerState := General), ValueData)
    case TransferEncoding =>
      Taking(q.(headerState := if Lower(c) == 'c' as int then MatchingChunked else General), ValueData)
    case ContentLength =>
      if !IsNum(c) then Fail(InvalidContentLength)
      else if p.flags.contentLength then Fail(UnexpectedContentLength)
      else Taking(q.(flags := p.flags.(contentLength := true), contentLength := c - '0' as int,
                     headerState := ContentLengthNum), ValueData)
    case Connection => Taking(q.(headerState := ConnectionToken(Lower(c), Token)), ValueData)
    case TokenStart => Taking(q, ValueData)
    case _ => Taking(q.(headerState := General), ValueData)
  }

  function ConnectionToken(c: Byte, other: HeaderState): HeaderState {
    if c == 'k' as int then MatchingKeepAlive
    else if c == 'c' as int then MatchingClose
    else if c == 'u' as int then MatchingUpgradeToken
    else other
  }

  /** A value is matched against a word; `missed` is where a difference leads. */
  function MatchValue(p: Parser, c: Byte, word: string, missed: HeaderState, final: HeaderState): Parser {
    var i := p.index + 1;
    if i > |word| || c != CharAt(word, i) then p.(index := i, headerState := missed)
    else if i == |word| - 1 then p.(index := i, headerState := final)
    else p.(index := i)
  }

  /** One more decimal digit of Content-Length. The product is taken in 64 bits; the
      test looks at the old value. */
  function ContentDigit(length: nat, digit: nat): Option<nat> {
    var t := (length * 10 + digit) % 0x1_0000_0000_0000_0000;
    if (MaxLength - 10) / 10 < length then None else Some(t)
  }

  /** One more hexadecimal digit of a chunk size. */
  function ChunkDigit(length: nat, digit: nat): Option<nat> {
    var t := (length * 16 + digit) % 0x1_0000_0000_0000_0000;
    if (MaxLength - 16) / 16 < length then None else Some(t)
  }

  function OnLengthDigit(p: Parser, c: Byte): Option<Parser> {
    if c == ' ' as int then Some(p.(headerState := ContentLengthWs))
    else if !IsNum(c) then None
    else match ContentDigit(p.contentLength, c - '0' as int)
      case None => None
      case Some(t) => Some(p.(headerState := ContentLengthNum, contentLength := t))
  }

  /** The character after a complete Connection token. */
  function AfterToken(p: Parser, ch: Byte): Parser {
    if ch == ',' as int then
      var flags := if p.headerState.KeepAlive? then p.flags.(keepAlive := true)
                   else if p.headerState.Close? then p.flags.(close := true)
                   else p.flags.(connectionUpgrade := true);
      p.(flags := flags, headerState := TokenStart, index := 0)
    else if ch != ' ' as int then p.(headerState := Token)
    else p
  }

  function TokenAfter(c: Byte): HeaderState {
    if StrictToken(c) != 0 then Token else if c == ' ' as int || c == 9 then TokenStart else General
  }

  /** A character inside a header value, or an invalid Content-Length. */
  function OnValueChar(p: Parser, ch: Byte): Option<Parser> {
    var c := Lower(ch);
    match p.headerState
    case ContentLength => if ch == ' ' as int then Some(p) else OnLengthDigit(p, ch)
    case ContentLengthNum => OnLengthDigit(p, ch)
    case ContentLengthWs => if ch == ' ' as int then Some(p) else None
    case MatchingChunked => Some(MatchValue(p, c, "chunked", General, Chunked))
    case TokenStart => Some(p.(headerState := ConnectionToken(c, TokenAfter(c))))
    case MatchingKeepAlive => Some(MatchValue(p, c, "keep-alive", Token, KeepAlive))
    case MatchingClose => Some(MatchValue(p, c, "close", Token, Close))
    case MatchingUpgradeToken => Some(MatchValue(p, c, "upgrade", Token, UpgradeToken))
    case Token => Some(if ch == ',' as int then p.(headerState := TokenStart, index := 0) else p)
    case Chunked => Some(if ch != ' ' as int then p.(headerState := General) else p)
    case KeepAlive => Some(AfterToken(p, ch))
    case Close => Some(AfterToken(p, ch))
    case UpgradeToken => Some(AfterToken(p, ch))
    case General => Some(p)
    case _ => Some(p.(headerState := General))
  }

  function OnValue(p: Parser, c: Byte): Move {
    if c == CR then Flushing(p.(state := HeaderAlmostDone), ValueData)
    else if c == LF then Flushing(p.(state := ValueLws), ValueData)
    else if !IsHeaderChar(c) then Fail(InvalidHeaderToken)
    else match OnValueChar(p, c)
      case None => Fail(InvalidContentLength)
      case Some(q) => Taking(q, ValueData)
  }

  /** The flags a finished header sets. */
  function HeaderFlags(p: Parser): Flags {
    match p.headerState
    case KeepAlive => p.flags.(keepAlive := true)
    case Close => p.flags.(close := true)
    case Chunked => p.flags.(chunked := true)
    case UpgradeToken => p.flags.(connectionUpgrade := true)
    case _ => p.flags
  }

  function OnValueLws(p: Parser, c: Byte): Move {
    if c == ' ' as int || c == 9 then OnValueStart(p, c)
    else OnFieldStart(p.(flags := HeaderFlags(p), state := FieldStart), c)
  }

  function OnDiscardLws(p: Parser, c: Byte): Move {
    if c == ' ' as int || c == 9 then Silent(p.(state := DiscardWs))
    else match OnFieldStart(p.(flags := HeaderFlags(p), state := FieldStart), c)
      case Fail(e) => Fail(e)
      case Go(q, flush, empty, take, complete, exit, reset) => Go(q, flush, true, take, complete, exit, reset)
  }

  // End of the headers, and the body

  function OnMessageDone(p: Parser): Move { Completing(p.(state := StartReq), p.upgrade, false) }

  function OnHeadersAlmostDone(p: Parser): Move {
    if p.flags.trailing then OnMessageDone(p)
    else if p.flags.chunked && p.flags.contentLength then Fail(UnexpectedContentLength)
    else OnHeadersDone(p.(upgrade := (p.flags.upgrade && p.flags.connectionUpgrade) || p.verb == CONNECT))
  }

  function OnHeadersDone(p: Parser): Move {
    var hasBody := p.flags.chunked || 0 < p.contentLength < MaxLength;
    if p.upgrade && (p.verb == CONNECT || !hasBody) then Completing(p.(state := StartReq), true, true)
    else if p.flags.chunked then Resetting(p.(state := ChunkSizeStart))
    else if p.contentLength == 0 then Completing(p.(state := StartReq), false, true)
    else if p.contentLength != MaxLength then Resetting(p.(state := BodyIdentity))
    else Completing(p.(state := StartReq), false, true)
  }

  function OnChunkSize(p: Parser, c: Byte): Move {
    if p.state.ChunkSizeStart? then
      if Unhex(c) == -1 then Fail(InvalidChunkSize)
      else Silent(p.(contentLength := Unhex(c), state := ChunkSize))
    else if c == CR then Silent(p.(state := ChunkSizeAlmostDone))
    else if p.state.ChunkParameters? then Silent(p)
    else if Unhex(c) == -1 then
      if Among(c, "; ") then Silent(p.(state := ChunkParameters)) else Fail(InvalidChunkSize)
    else match ChunkDigit(p.contentLength, Unhex(c))
      case None => Fail(InvalidContentLength)
      case Some(t) => Silent(p.(contentLength := t))
  }

  function OnChunkSizeDone(p: Parser): Move {
    if p.contentLength == 0 then
      Resetting(p.(flags := p.flags.(trailing := true), state := FieldStart))
    else Resetting(p.(state := ChunkData))
  }

  /** One body byte; the last one of an identity body also ends the message. */
  function OnBody(p: Parser): Move {
    var n := if p.contentLength == 0 then 0 else p.contentLength - 1;
    if n > 0 then Taking(p.(contentLength := n), BodyData)
    else if p.state.ChunkData? then Taking(p.(contentLength := 0, state := ChunkDataAlmostDone), BodyData)
    else Go(p.(contentLength := 0, state := StartReq), None, false, Some(BodyData), true, p.upgrade, false)
  }

  /** The switch of http_parser_execute, on one byte that has already been counted. */
  function Next(p: Parser, c: Byte): Move {
    match p.state
    case Dead => if c == CR || c == LF then Silent(p) else Fail(ClosedConnection)
    case StartReq => OnStart(p, c)
    case ReqMethod => OnMethod(p, c)
    case SpacesBeforeUrl => OnSpaces(p, c)
    case FieldStart => OnFieldStart(p, c)
    case Field => OnField(p, c)
    case DiscardWs => OnDiscardWs(p, c)
    case DiscardWsAlmostDone => Silent(p.(state := DiscardLws))
    case DiscardLws => OnDiscardLws(p, c)
    case ValueStart => OnValueStart(p, c)
    case Value => OnValue(p, c)
    case ValueLws => OnValueLws(p, c)
    case HeaderAlmostDone => if c == LF then Silent(p.(state := ValueLws)) else Fail(LfExpected)
    case HeadersAlmostDone => OnHeadersAlmostDone(p)
    case HeadersDone => OnHeadersDone(p)
    case ChunkSizeStart => OnChunkSize(p, c)
    case ChunkSize => OnChunkSize(p, c)
    case ChunkParameters => OnChunkSize(p, c)
    case ChunkSizeAlmostDone => OnChunkSizeDone(p)
    case ChunkDataAlmostDone => Flushing(p.(state := ChunkDataDone), BodyData)
    case ChunkDataDone => Resetting(p.(state := ChunkSizeStart))
    case ChunkData => OnBody(p)
    case BodyIdentity => OnBody(p)
    case MessageDone => OnMessageDone(p)
    case _ => if InUrl(p.state) then OnUrl(p, c) else OnVersion(p, c)
  }
}
