/**
 * The HTTP request parser of http_parser.cc, one byte at a time: request parsers, strict mode,
 * callbacks that return 0. Pass is one execution of the big switch; a pass may ask for the same
 * byte to be executed again. Parse is the meaning of a byte string; HttpExecute shows that the
 * real loop, with its marks and its bulk reading of bodies, computes it.
 */
module HttpParser {
  import opened Bytes

  const MAX_HEADER_SIZE: nat := 80 * 1024
  const TWO64: nat := 0x1_0000_0000_0000_0000
  /** The content length of a message that gave none: ULLONG_MAX. */
  const NO_LENGTH: nat := 0xffff_ffff_ffff_ffff

  // ---------------------------------------------------------------- the parser's fields

  datatype Method =
    | DELETE | GET | HEAD | POST | PUT | CONNECT | OPTIONS | TRACE | COPY | LOCK | MKCOL | MOVE | PROPFIND
    | PROPPATCH | SEARCH | UNLOCK | REPORT | MKACTIVITY | CHECKOUT | MERGE | MSEARCH | NOTIFY | SUBSCRIBE
    | UNSUBSCRIBE | PATCH | PURGE

  datatype State =
    | Dead | StartReq | ReqMethod
    | SpacesBeforeUrl | Schema | SchemaSlash | SchemaSlashSlash | ServerStart | Server | ServerWithAt
    | Path | QueryStart | Query | FragmentStart | Fragment
    | HttpStart | HttpH | HttpHT | HttpHTT | HttpHTTP | FirstMajor | Major | FirstMinor | Minor | LineAlmostDone
    | FieldStart | Field | ValueStart | Value | ValueLws | HeaderAlmostDone
    | ChunkSizeStart | ChunkSize | ChunkParameters | ChunkSizeAlmostDone
    | HeadersAlmostDone | HeadersDone
    | ChunkData | ChunkDataAlmostDone | ChunkDataDone
    | BodyIdentity | MessageDone

  datatype HeaderState =
    | General | SawC | SawCO | SawCON
    | MatchingConnection | MatchingProxyConnection | MatchingContentLength | MatchingTransferEncoding | MatchingUpgrade
    | Connection | ContentLength | TransferEncoding | Upgrade
    | MatchingChunked | MatchingKeepAlive | MatchingClose
    | ValueChunked | ValueKeepAlive | ValueClose

  datatype Errno =
    | OK | InvalidMethod | InvalidUrl | InvalidConstant | Strict | InvalidVersion | LfExpected | InvalidHeaderToken
    | InvalidContentLength | InvalidChunkSize | HeaderOverflow | ClosedConnection | InvalidEofState

  datatype Flags = Flags(chunked: bool, keepAlive: bool, close: bool, trailing: bool, upgrade: bool)

  const NO_FLAGS := Flags(false, false, false, false, false)

  datatype Fields = Fields(state: State, header: HeaderState, index: nat, nread: nat, length: nat,
                           major: nat, minor: nat, meth: Method, errno: Errno, upgrade: bool, flags: Flags)

  /** http_parser_init for HTTP_REQUEST. */
  const INIT := Fields(StartReq, General, 0, 0, 0, 0, 0, DELETE, OK, false, NO_FLAGS)

  datatype Channel = Url | Name | Text | Body

  /**
   * What the callbacks are told: single bytes of data, that a url, a name or a value is over, so that
   * its callback is called with the bytes told since, the end of the headers, the end of the message.
   */
  datatype Event =
    | Data(channel: Channel, b: byte)
    | Called(channel: Channel)
    | HeadersComplete(nread: nat, length: nat)
    | MessageComplete

  // ---------------------------------------------------------------- characters

  function Lower(c: byte): byte {
    if c / 32 % 2 == 1 then c else c + 32
  }

  predicate IsAlpha(c: byte) {
    'a' as int <= Lower(c) as int <= 'z' as int
  }

  predicate IsOneOf(c: byte, s: string) {
    exists i :: 0 <= i < |s| && s[i] as int == c
  }

  predicate IsUserinfoChar(c: byte) {
    IsAlpha(c) || IsDigit(c) || IsOneOf(c, "-_.!~*'()%;:&=+$,")
  }

  /** IS_URL_CHAR in strict mode: visible ASCII other than # and ?. */
  predicate IsUrlChar(c: byte) {
    33 <= c <= 126 && c != '#' as int && c != '?' as int
  }

  /** TOKEN in strict mode: the lower-case form of a token character, or 0. */
  function Token(c: byte): byte {
    if IsAlpha(c) then Lower(c)
    else if IsDigit(c) || IsOneOf(c, "!#$%&'*+-.^_`|~") then c
    else 0
  }

  /** The value of a hexadecimal digit, or -1. */
  function Unhex(c: byte): (n: int)
    ensures -1 <= n < 16
  {
    if IsDigit(c) then c - ZERO
    else if 'a' as int <= c as int <= 'f' as int then c - 'a' as int + 10
    else if 'A' as int <= c as int <= 'F' as int then c - 'A' as int + 10
    else -1
  }

  // ---------------------------------------------------------------- one pass of the switch

  datatype Kind =
    | Done
    /** goto reexecute_byte */
    | Again
    /** goto error */
    | Fail
    /** The parser left the rest of the input to another protocol. */
    | Stop
    /** An assertion of the parser failed. */
    | Broken

  datatype Pass = Pass(kind: Kind, f: Fields, events: seq<Event>)

  function Next(f: Fields, s: State): Pass {
    Pass(Done, f.(state := s), [])
  }

  /** CALLBACK_DATA, at the end of a datum. */
  function Flush(c: Channel, p: Pass): Pass {
    p.(events := [Called(c)])
  }

  function Error(f: Fields, e: Errno): Pass {
    Pass(Fail, f.(errno := e), [])
  }

  /** STRICT_CHECK. */
  function Expect(f: Fields, ch: byte, expected: byte, s: State): Pass {
    if ch == expected then Next(f, s) else Error(f, Strict)
  }

  function Bug(f: Fields): Pass {
    Pass(Broken, f, [])
  }

  /** http_should_keep_alive; http_message_needs_eof is false for requests. */
  predicate ShouldKeepAlive(f: Fields) {
    if f.major > 0 && f.minor > 0 then !f.flags.close else f.flags.keepAlive
  }

  /** The states between two messages. */
  predicate IsOver(s: State) {
    s == StartReq || s == Dead
  }

  function NewMessage(f: Fields): (s: State)
    ensures IsOver(s)
  {
    if ShouldKeepAlive(f) then StartReq else Dead
  }

  function Complete(f: Fields): Pass {
    Pass(Done, f.(state := NewMessage(f)), [MessageComplete])
  }

  function MethodString(m: Method): string {
    match m
    case DELETE => "DELETE"
    case GET => "GET"
    case HEAD => "HEAD"
    case POST => "POST"
    case PUT => "PUT"
    case CONNECT => "CONNECT"
    case OPTIONS => "OPTIONS"
    case TRACE => "TRACE"
    case COPY => "COPY"
    case LOCK => "LOCK"
    case MKCOL => "MKCOL"
    case MOVE => "MOVE"
    case PROPFIND => "PROPFIND"
    case PROPPATCH => "PROPPATCH"
    case SEARCH => "SEARCH"
    case UNLOCK => "UNLOCK"
    case REPORT => "REPORT"
    case MKACTIVITY => "MKACTIVITY"
    case CHECKOUT => "CHECKOUT"
    case MERGE => "MERGE"
    case MSEARCH => "M - SEARCH"
    case NOTIFY => "NOTIFY"
    case SUBSCRIBE => "SUBSCRIBE"
    case UNSUBSCRIBE => "UNSUBSCRIBE"
    case PATCH => "PATCH"
    case PURGE => "PURGE"
  }

  /** The method a first letter stands for until more is read. */
  function FirstMethod(ch: byte): Option<Method> {
    if ch == 'C' as int then Some(CONNECT)
    else if ch == 'D' as int then Some(DELETE)
    else if ch == 'G' as int then Some(GET)
    else if ch == 'H' as int then Some(HEAD)
    else if ch == 'L' as int then Some(LOCK)
    else if ch == 'M' as int then Some(MKCOL)
    else if ch == 'N' as int then Some(NOTIFY)
    else if ch == 'O' as int then Some(OPTIONS)
    else if ch == 'P' as int then Some(POST)
    else if ch == 'R' as int then Some(REPORT)
    else if ch == 'S' as int then Some(SUBSCRIBE)
    else if ch == 'T' as int then Some(TRACE)
    else if ch == 'U' as int then Some(UNLOCK)
    else None
  }

  function OnStart(f: Fields, ch: byte): (p: Pass)
    ensures p.kind == Fail || p.f.errno == f.errno
    ensures p.kind != Again && p.kind != Stop
  {
    if ch == CR || ch == LF then Next(f, StartReq)
    else
      var g := f.(flags := NO_FLAGS, length := NO_LENGTH);
      if !IsAlpha(ch) then Error(g, InvalidMethod)
      else
        match FirstMethod(ch)
        case None => Error(g.(meth := DELETE, index := 1), InvalidMethod)
        case Some(m) => Next(g.(meth := m, index := 1), ReqMethod)
  }

  /** The method that takes over when a letter does not fit the one assumed so far. */
  function Redirect(m: Method, index: nat, ch: byte): Option<Method> {
    if m == CONNECT then
      if index == 1 && ch == 'H' as int then Some(CHECKOUT)
      else if index == 2 && ch == 'P' as int then Some(COPY)
      else None
    else if m == MKCOL then
      if index == 1 && ch == 'O' as int then Some(MOVE)
      else if index == 1 && ch == 'E' as int then Some(MERGE)
      else if index == 1 && ch == '-' as int then Some(MSEARCH)
      else if index == 2 && ch == 'A' as int then Some(MKACTIVITY)
      else None
    else if m == SUBSCRIBE then
      if index == 1 && ch == 'E' as int then Some(SEARCH) else None
    else if index == 1 && m == POST then
      if ch == 'R' as int then Some(PROPFIND)
      else if ch == 'U' as int then Some(PUT)
      else if ch == 'A' as int then Some(PATCH)
      else None
    else if index == 2 then
      if m == PUT && ch == 'R' as int then Some(PURGE)
      else if m == UNLOCK && ch == 'S' as int then Some(UNSUBSCRIBE)
      else None
    else if index == 4 && m == PROPFIND && ch == 'P' as int then Some(PROPPATCH)
    else None
  }

  function OnMethod(f: Fields, ch: byte): (p: Pass)
    ensures p.kind == Fail || p.f.errno == f.errno
    ensures p.kind != Again && p.kind != Stop
  {
    var matcher := MethodString(f.meth);
    if ch == 0 then Error(f, InvalidMethod)
    else if f.index > |matcher| then Bug(f)
    else if f.index == |matcher| && ch == SPACE then Next(f.(index := f.index + 1), SpacesBeforeUrl)
    else if f.index < |matcher| && ch == matcher[f.index] as int then Next(f.(index := f.index + 1), ReqMethod)
    else
      match Redirect(f.meth, f.index, ch)
      case Some(m) => Next(f.(meth := m, index := f.index + 1), ReqMethod)
      case None => Error(f, InvalidMethod)
  }

  /** parse_url_char in strict mode. */
  function ParseUrlChar(s: State, ch: byte): State {
    if ch == SPACE || ch == CR || ch == LF || ch == TAB || ch == 12 then Dead
    else
      match s
      case SpacesBeforeUrl =>
        if ch == '/' as int || ch == '*' as int then Path else if IsAlpha(ch) then Schema else Dead
      case Schema => if IsAlpha(ch) then Schema else if ch == ':' as int then SchemaSlash else Dead
      case SchemaSlash => if ch == '/' as int then SchemaSlashSlash else Dead
      case SchemaSlashSlash => if ch == '/' as int then ServerStart else Dead
      case ServerWithAt => if ch == '@' as int then Dead else ParseServerChar(ch)
      case ServerStart => ParseServerChar(ch)
      case Server => ParseServerChar(ch)
      case Path =>
        if IsUrlChar(ch) then Path else if ch == '?' as int then QueryStart
        else if ch == '#' as int then FragmentStart else Dead
      case QueryStart => ParseQueryChar(ch)
      case Query => ParseQueryChar(ch)
      case FragmentStart =>
        if IsUrlChar(ch) || ch == '?' as int then Fragment else if ch == '#' as int then FragmentStart else Dead
      case Fragment => if IsUrlChar(ch) || ch == '?' as int || ch == '#' as int then Fragment else Dead
      case _ => Dead
  }

  function ParseServerChar(ch: byte): State {
    if ch == '/' as int then Path
    else if ch == '?' as int then QueryStart
    else if ch == '@' as int then ServerWithAt
    else if IsUserinfoChar(ch) || ch == '[' as int || ch == ']' as int then Server
    else Dead
  }

  function ParseQueryChar(ch: byte): State {
    if IsUrlChar(ch) || ch == '?' as int then Query else if ch == '#' as int then FragmentStart else Dead
  }

  predicate IsUrlState(s: State) {
    s.Schema? || s.SchemaSlash? || s.SchemaSlashSlash? || s.ServerStart? || s.Server? || s.ServerWithAt? || s.Path?
    || s.QueryStart? || s.Query? || s.FragmentStart? || s.Fragment?
  }

  /** Url states in which a blank may end the url. */
  predicate MayEndUrl(s: State) {
    s.Server? || s.ServerWithAt? || s.Path? || s.QueryStart? || s.Query? || s.FragmentStart? || s.Fragment?
  }

  function UrlChar(f: Fields, s: State, ch: byte): Pass {
    var s' := ParseUrlChar(s, ch);
    if s' == Dead then Error(f.(state := Dead), InvalidUrl) else Next(f, s')
  }

  function OnUrl(f: Fields, ch: byte): (p: Pass)
    ensures p.kind == Fail || p.f.errno == f.errno
    ensures p.kind != Again && p.kind != Stop
  {
    if f.state == SpacesBeforeUrl then
      if ch == SPACE then Next(f, SpacesBeforeUrl)
      else UrlChar(f, if f.meth == CONNECT then ServerStart else SpacesBeforeUrl, ch)
    else if !MayEndUrl(f.state) then
      if ch == SPACE || ch == CR || ch == LF then Error(f, InvalidUrl) else UrlChar(f, f.state, ch)
    else if ch == SPACE then Flush(Url, Next(f, HttpStart))
    else if ch == CR then Flush(Url, Next(f.(major := 0, minor := 9), LineAlmostDone))
    else if ch == LF then Flush(Url, Next(f.(major := 0, minor := 9), FieldStart))
    else UrlChar(f, f.state, ch)
  }

  function OnVersion(f: Fields, ch: byte): (p: Pass)
    ensures p.kind == Fail || p.f.errno == f.errno
    ensures p.kind != Again && p.kind != Stop
  {
    match f.state
    case HttpStart =>
      if ch == 'H' as int then Next(f, HttpH) else if ch == SPACE then Next(f, HttpStart) else Error(f, InvalidConstant)
    case HttpH => Expect(f, ch, 'T' as int, HttpHT)
    case HttpHT => Expect(f, ch, 'T' as int, HttpHTT)
    case HttpHTT => Expect(f, ch, 'P' as int, HttpHTTP)
    case HttpHTTP => Expect(f, ch, '/' as int, FirstMajor)
    case FirstMajor =>
      if ZERO + 1 <= ch <= NINE then Next(f.(major := ch - ZERO), Major) else Error(f, InvalidVersion)
    case Major =>
      if ch == '.' as int then Next(f, FirstMinor)
      else if !IsDigit(ch) then Error(f, InvalidVersion)
      else
        var g := f.(major := f.major * 10 + (ch - ZERO));
        if g.major > 999 then Error(g, InvalidVersion) else Next(g, Major)
    case FirstMinor =>
      if IsDigit(ch) then Next(f.(minor := ch - ZERO), Minor) else Error(f, InvalidVersion)
    case Minor =>
      if ch == CR then Next(f, LineAlmostDone)
      else if ch == LF then Next(f, FieldStart)
      else if !IsDigit(ch) then Error(f, InvalidVersion)
      else
        var g := f.(minor := f.minor * 10 + (ch - ZERO));
        if g.minor > 999 then Error(g, InvalidVersion) else Next(g, Minor)
    case LineAlmostDone => if ch == LF then Next(f, FieldStart) else Error(f, LfExpected)
    case _ => Bug(f)
  }

  function OnFieldStart(f: Fields, ch: byte): (p: Pass)
    ensures p.kind == Fail || p.f.errno == f.errno
    ensures p.kind != Stop
    ensures p.kind == Again ==> p.f.state == HeadersAlmostDone
  {
    if ch == CR then Next(f, HeadersAlmostDone)
    else if ch == LF then Pass(Again, f.(state := HeadersAlmostDone), [])
    else
      var c := Token(ch);
      if c == 0 then Error(f, InvalidHeaderToken)
      else
        Next(f.(index := 0,
                header := if c == 'c' as int then SawC
                          else if c == 'p' as int then MatchingProxyConnection
                          else if c == 't' as int then MatchingTransferEncoding
                          else if c == 'u' as int then MatchingUpgrade
                          else General),
             Field)
  }

  /** One more character against a name: the whole name matched, still matching, or not. */
  function Match(name: string, index: nat, c: byte, matching: HeaderState, matched: HeaderState): HeaderState {
    if index >= |name| || c != name[index] as int then General
    else if index == |name| - 1 then matched
    else matching
  }

  /** The header state after a token character c; None for states the parser does not expect here. */
  function MatchName(h: HeaderState, index: nat, c: byte): Option<HeaderState> {
    match h
    case General => Some(General)
    case SawC => Some(if c == 'o' as int then SawCO else General)
    case SawCO => Some(if c == 'n' as int then SawCON else General)
    case SawCON =>
      Some(if c == 'n' as int then MatchingConnection else if c == 't' as int then MatchingContentLength else General)
    case MatchingConnection => Some(Match("connection", index, c, h, Connection))
    case MatchingProxyConnection => Some(Match("proxy-connection", index, c, h, Connection))
    case MatchingContentLength => Some(Match("content-length", index, c, h, ContentLength))
    case MatchingTransferEncoding => Some(Match("transfer-encoding", index, c, h, TransferEncoding))
    case MatchingUpgrade => Some(Match("upgrade", index, c, h, Upgrade))
    case Connection => Some(if c == SPACE then h else General)
    case ContentLength => Some(if c == SPACE then h else General)
    case TransferEncoding => Some(if c == SPACE then h else General)
    case Upgrade => Some(if c == SPACE then h else General)
    case _ => None
  }

  /** Header states in which the index counts the characters matched. */
  predicate Counts(h: HeaderState) {
    h.SawC? || h.SawCO? || h.SawCON? || h.MatchingConnection? || h.MatchingProxyConnection?
    || h.MatchingContentLength? || h.MatchingTransferEncoding? || h.MatchingUpgrade?
    || h.MatchingChunked? || h.MatchingKeepAlive? || h.MatchingClose?
  }

  function OnField(f: Fields, ch: byte): (p: Pass)
    ensures p.kind == Fail || p.f.errno == f.errno
    ensures p.kind != Again && p.kind != Stop
  {
    var c := Token(ch);
    if c != 0 then
      var index := if Counts(f.header) then (f.index + 1) % 256 else f.index;
      match MatchName(f.header, index, c)
      case Some(h) => Next(f.(index := index, header := h), Field)
      case None => Bug(f)
    else if ch == ':' as int then Flush(Name, Next(f, ValueStart))
    else if ch == CR then Flush(Name, Next(f, HeaderAlmostDone))
    else if ch == LF then Flush(Name, Next(f, FieldStart))
    else Error(f, InvalidHeaderToken)
  }

  function OnValueStart(f: Fields, ch: byte): (p: Pass)
    ensures p.kind == Fail || p.f.errno == f.errno
    ensures p.kind != Again && p.kind != Stop
  {
    if ch == SPACE || ch == TAB then Next(f, ValueStart)
    else
      var g := f.(index := 0);
      var c := Lower(ch);
      if ch == CR then Flush(Text, Next(g.(header := General), HeaderAlmostDone))
      else if ch == LF then Flush(Text, Next(g, FieldStart))
      else
        match f.header
        case Upgrade => Next(g.(flags := f.flags.(upgrade := true), header := General), Value)
        case TransferEncoding => Next(g.(header := if c == 'c' as int then MatchingChunked else General), Value)
        case ContentLength =>
          if IsDigit(ch) then Next(g.(length := ch - ZERO), Value)
          else Error(g.(state := Value), InvalidContentLength)
        case Connection =>
          Next(g.(header := if c == 'k' as int then MatchingKeepAlive
                            else if c == 'c' as int then MatchingClose else General), Value)
        case _ => Next(g.(header := General), Value)
  }

  /** A length read so far and one more digit, in 64-bit arithmetic; None when the parser notices an overflow. */
  function MoreLength(length: nat, base: nat, digit: nat): Option<nat> {
    var t := (length * base + digit) % TWO64;
    if t < length || t == NO_LENGTH then None else Some(t)
  }

  function OnValue(f: Fields, ch: byte): (p: Pass)
    ensures p.kind == Fail || p.f.errno == f.errno
    ensures p.kind != Stop
    ensures p.kind == Again ==> p.f.state == HeaderAlmostDone
  {
    if ch == CR then Flush(Text, Next(f, HeaderAlmostDone))
    else if ch == LF then Flush(Text, Pass(Again, f.(state := HeaderAlmostDone), []))
    else
      var c := Lower(ch);
      var g := if Counts(f.header) then f.(index := (f.index + 1) % 256) else f;
      match f.header
      case General => Next(f, Value)
      case Connection => Bug(f)
      case TransferEncoding => Bug(f)
      case ContentLength =>
        if ch == SPACE then Next(f, Value)
        else if !IsDigit(ch) then Error(f, InvalidContentLength)
        else
          (match MoreLength(f.length, 10, ch - ZERO)
           case None => Error(f, InvalidContentLength)
           case Some(t) => Next(f.(length := t), Value))
      case MatchingChunked => Next(g.(header := Match("chunked", g.index, c, f.header, ValueChunked)), Value)
      case MatchingKeepAlive => Next(g.(header := Match("keep-alive", g.index, c, f.header, ValueKeepAlive)), Value)
      case MatchingClose => Next(g.(header := Match("close", g.index, c, f.header, ValueClose)), Value)
      case ValueChunked => Next(if ch == SPACE then f else f.(header := General), Value)
      case ValueKeepAlive => Next(if ch == SPACE then f else f.(header := General), Value)
      case ValueClose => Next(if ch == SPACE then f else f.(header := General), Value)
      case _ => Next(f.(header := General), Value)
  }

  /** How many further passes one byte can need. */
  function Rank(s: State): nat {
    match s
    case ValueLws => 3
    case FieldStart => 2
    case HeadersAlmostDone => 1
    case Value => 1
    case BodyIdentity => 1
    case _ => 0
  }

  function OnHeaderEnd(f: Fields, ch: byte): (p: Pass)
    ensures p.kind == Stop ==> IsOver(p.f.state)
    ensures p.kind == Fail || p.f.errno == f.errno
    ensures p.kind == Again ==> Rank(p.f.state) < Rank(f.state)
  {
    match f.state
    case HeaderAlmostDone =>
      if ch != LF then Error(f, Strict)
      else
        Next(f.(flags := match f.header
                         case ValueKeepAlive => f.flags.(keepAlive := true)
                         case ValueClose => f.flags.(close := true)
                         case ValueChunked => f.flags.(chunked := true)
                         case _ => f.flags),
             ValueLws)
    case ValueLws =>
      if ch == SPACE || ch == TAB then Next(f, ValueStart) else Pass(Again, f.(state := FieldStart), [])
    case HeadersAlmostDone =>
      if ch != LF then Error(f, Strict)
      else if f.flags.trailing then Complete(f)
      else
        Pass(Again, f.(state := HeadersDone, upgrade := f.flags.upgrade || f.meth == CONNECT),
             [HeadersComplete(f.nread, f.length)])
    case HeadersDone =>
      if ch != LF then Error(f, Strict)
      else
        var g := f.(nread := 0);
        if f.upgrade then Complete(g).(kind := Stop)
        else if f.flags.chunked then Next(g, ChunkSizeStart)
        else if f.length == 0 || f.length == NO_LENGTH then Complete(g)
        else Next(g, BodyIdentity)
    case _ => Bug(f)
  }

  function OnChunk(f: Fields, ch: byte): (p: Pass)
    ensures p.kind == Fail || p.f.errno == f.errno
    ensures p.kind != Again && p.kind != Stop
  {
    if !f.flags.chunked then Bug(f)
    else
      match f.state
      case ChunkSizeStart =>
        if f.nread != 1 then Bug(f)
        else if Unhex(ch) == -1 then Error(f, InvalidChunkSize)
        else Next(f.(length := Unhex(ch)), ChunkSize)
      case ChunkSize =>
        if ch == CR then Next(f, ChunkSizeAlmostDone)
        else if Unhex(ch) == -1 then
          if ch == ';' as int || ch == SPACE then Next(f, ChunkParameters) else Error(f, InvalidChunkSize)
        else
          (match MoreLength(f.length, 16, Unhex(ch))
           case None => Error(f, InvalidContentLength)
           case Some(t) => Next(f.(length := t), ChunkSize))
      case ChunkParameters => Next(f, if ch == CR then ChunkSizeAlmostDone else ChunkParameters)
      case ChunkSizeAlmostDone =>
        if ch != LF then Error(f, Strict)
        else if f.length == 0 then Next(f.(nread := 0, flags := f.flags.(trailing := true)), FieldStart)
        else Next(f.(nread := 0), ChunkData)
      case ChunkData =>
        if f.length == 0 || f.length == NO_LENGTH then Bug(f)
        else
          var g := f.(length := f.length - 1);
          Pass(Done, g.(state := if g.length == 0 then ChunkDataAlmostDone else ChunkData), [Data(Body, ch)])
      case ChunkDataAlmostDone => if f.length != 0 then Bug(f) else Expect(f, ch, CR, ChunkDataDone)
      case ChunkDataDone => if ch != LF then Error(f, Strict) else Next(f.(nread := 0), ChunkSizeStart)
      case _ => Bug(f)
  }

  function OnBody(f: Fields, ch: byte): (p: Pass)
    ensures p.kind == Fail || p.f.errno == f.errno
    ensures p.kind != Stop
    ensures p.kind == Again ==> p.f.state == MessageDone
  {
    if f.length == 0 || f.length == NO_LENGTH then Bug(f)
    else
      var g := f.(length := f.length - 1);
      if g.length == 0 then Pass(Again, g.(state := MessageDone), [Data(Body, ch)])
      else Pass(Done, g, [Data(Body, ch)])
  }

  predicate IsVersionState(s: State) {
    s.HttpStart? || s.HttpH? || s.HttpHT? || s.HttpHTT? || s.HttpHTTP? || s.FirstMajor? || s.Major? || s.FirstMinor?
    || s.Minor? || s.LineAlmostDone?
  }

  predicate IsChunkState(s: State) {
    s.ChunkSizeStart? || s.ChunkSize? || s.ChunkParameters? || s.ChunkSizeAlmostDone? || s.ChunkData?
    || s.ChunkDataAlmostDone? || s.ChunkDataDone?
  }

  /** One execution of the switch for the byte ch. */
  function Switch(f: Fields, ch: byte): Pass {
    if f.state == Dead then
      if ch == CR || ch == LF then Next(f, Dead) else Error(f, ClosedConnection)
    else if f.state == StartReq then OnStart(f, ch)
    else if f.state == ReqMethod then OnMethod(f, ch)
    else if f.state == SpacesBeforeUrl || IsUrlState(f.state) then OnUrl(f, ch)
    else if IsVersionState(f.state) then OnVersion(f, ch)
    else if f.state == FieldStart then OnFieldStart(f, ch)
    else if f.state == Field then OnField(f, ch)
    else if f.state == ValueStart then OnValueStart(f, ch)
    else if f.state == Value then OnValue(f, ch)
    else if IsChunkState(f.state) then OnChunk(f, ch)
    else if f.state == BodyIdentity then OnBody(f, ch)
    else if f.state == MessageDone then Complete(f)
    else OnHeaderEnd(f, ch)
  }

  /** Executing a byte again always leads to a state of lower rank, whatever the fields are. */
  lemma AgainDescends(f: Fields, ch: byte)
    ensures Switch(f, ch).kind == Again ==> Rank(Switch(f, ch).f.state) < Rank(f.state)
  {
    hide OnStart, OnMethod, OnUrl, OnVersion, OnFieldStart, OnField, OnValueStart, OnValue, OnHeaderEnd, OnChunk, OnBody;
  }

  lemma StopIsOver(f: Fields, ch: byte)
    ensures Switch(f, ch).kind == Stop ==> IsOver(Switch(f, ch).f.state)
  {
    hide OnStart, OnMethod, OnUrl, OnVersion, OnFieldStart, OnField, OnValueStart, OnValue, OnHeaderEnd, OnChunk, OnBody;
    hide IsOver;
  }

  /** All passes one byte takes. */
  function Passes(f: Fields, ch: byte): (p: Pass)
    ensures p.kind != Again
    decreases Rank(f.state)
  {
    var p := Switch(f, ch);
    if p.kind != Again then p
    else
      AgainDescends(f, ch);
      var q := Passes(p.f, ch);
      q.(events := p.events + q.events)
  }

  // ---------------------------------------------------------------- bytes and byte strings

  /** PARSING_HEADER: the states whose bytes count towards the header limit. */
  predicate ParsingHeader(s: State) {
    !s.ChunkData? && !s.ChunkDataAlmostDone? && !s.ChunkDataDone? && !s.BodyIdentity? && !s.MessageDone?
  }

  /** The callback that a byte belongs to when the parser is in state s after it. */
  function ChannelOf(s: State): Option<Channel> {
    if IsUrlState(s) then Some(Url) else if s == Field then Some(Name) else if s == Value then Some(Text) else None
  }

  /** A byte on its channel, as an event. */
  function Told(s: State, ch: byte): seq<Event> {
    match ChannelOf(s)
    case None => []
    case Some(channel) => [Data(channel, ch)]
  }

  function Counted(f: Fields): Fields {
    if ParsingHeader(f.state) then f.(nread := f.nread + 1) else f
  }

  /** All that happens to one byte of input. */
  function Byte(f: Fields, ch: byte): (p: Pass)
    ensures p.kind != Again
  {
    var g := Counted(f);
    if ParsingHeader(f.state) && g.nread > MAX_HEADER_SIZE then Error(g, HeaderOverflow)
    else
      var p := Passes(g, ch);
      if p.kind == Done then p.(events := p.events + Told(p.f.state, ch)) else p
  }

  /** What a byte string does to a parser, byte by byte. A failed parser ignores it. */
  function Parse(f: Fields, data: bytes): (p: Pass)
    ensures p.kind != Again
    decreases |data|
  {
    if data == [] then Pass(if f.errno == OK then Done else Fail, f, [])
    else
      var o := Parse(f, data[..|data| - 1]);
      if o.kind != Done then o
      else
        var p := Byte(o.f, data[|data| - 1]);
        p.(events := o.events + p.events)
  }

  /** Going on after p. */
  function Then(p: Pass, q: Pass): Pass {
    if p.kind != Done then p else q.(events := p.events + q.events)
  }

  lemma ThenAssoc(p: Pass, q: Pass, r: Pass)
    ensures Then(Then(p, q), r) == Then(p, Then(q, r))
  {
    assert p.events + (q.events + r.events) == (p.events + q.events) + r.events;
  }

  lemma ParseStep(f: Fields, data: bytes, ch: byte)
    ensures Parse(f, data + [ch]) == Then(Parse(f, data), Byte(Parse(f, data).f, ch))
  {
    assert (data + [ch])[..|data|] == data;
  }

  lemma ParseNone(f: Fields)
    ensures Parse(f, []) == Pass(if f.errno == OK then Done else Fail, f, [])
  {
  }

  /** A byte after which the parser goes on leaves it without an error. */
  lemma DoneIsOk(f: Fields, ch: byte)
    requires f.errno == OK && Byte(f, ch).kind == Done
    ensures Byte(f, ch).f.errno == OK
  {
    PassesOk(Counted(f), ch);
  }

  lemma SwitchOk(f: Fields, ch: byte)
    requires f.errno == OK
    ensures var p := Switch(f, ch); p.kind == Fail || p.f.errno == OK
  {
    hide OnStart, OnMethod, OnUrl, OnVersion, OnFieldStart, OnField, OnValueStart, OnValue, OnHeaderEnd, OnChunk, OnBody;
  }

  lemma {:induction false} PassesOk(f: Fields, ch: byte)
    requires f.errno == OK
    ensures var p := Passes(f, ch); p.kind == Done || p.kind == Stop ==> p.f.errno == OK
    decreases Rank(f.state)
  {
    SwitchOk(f, ch);
    AgainDescends(f, ch);
    hide Switch;
    if Switch(f, ch).kind == Again {
      PassesOk(Switch(f, ch).f, ch);
    }
  }

  /** While parsing goes on there is no error. */
  lemma {:induction false} ParseOk(f: Fields, data: bytes)
    ensures Parse(f, data).kind == Done ==> Parse(f, data).f.errno == OK
    decreases |data|
  {
    if data != [] {
      ParseOk(f, data[..|data| - 1]);
      var o := Parse(f, data[..|data| - 1]);
      hide Byte;
      if o.kind == Done && Byte(o.f, data[|data| - 1]).kind == Done {
        DoneIsOk(o.f, data[|data| - 1]);
      }
    }
  }

  /** Parsing in two parts is parsing the whole, if the first part did not end the parsing. */
  lemma {:induction false} ParseSplit(f: Fields, a: bytes, b: bytes)
    ensures Parse(f, a + b) == Then(Parse(f, a), Parse(Parse(f, a).f, b))
    decreases |b|
  {
    hide Byte, Parse, Then;
    if b == [] {
      assert a + b == a;
      NoMore(f, a);
    } else {
      var k := |b| - 1;
      ParseSplit(f, a, b[..k]);
      assert a + b == (a + b[..k]) + [b[k]] && b == b[..k] + [b[k]];
      ParseStep(f, a + b[..k], b[k]);
      ParseStep(Parse(f, a).f, b[..k], b[k]);
      ThenStep(Parse(f, a), Parse(Parse(f, a).f, b[..k]), b[k]);
    }
  }

  lemma NoMore(f: Fields, a: bytes)
    ensures Parse(f, a) == Then(Parse(f, a), Parse(Parse(f, a).f, []))
  {
    ParseOk(f, a);
    ParseNone(Parse(f, a).f);
    hide Parse;
    assert Parse(f, a).events + [] == Parse(f, a).events;
  }

  lemma ThenStep(o: Pass, q: Pass, ch: byte)
    ensures Then(Then(o, q), Byte(Then(o, q).f, ch)) == Then(o, Then(q, Byte(q.f, ch)))
  {
    hide Byte;
    ThenAssoc(o, q, Byte(q.f, ch));
  }
}
