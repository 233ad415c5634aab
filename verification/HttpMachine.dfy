/**
 * The HTTP/1 parser as a machine that reads one byte at a time, in its strict configuration. Each
 * function is a group of cases of the switch in `http_parser_execute`.
 */
module HttpMachine {
  import opened Bits

  // ---- Characters ----

  const CR: Byte := 13
  const LF: Byte := 10
  const HT: Byte := 9
  const FF: Byte := 12
  const SP: Byte := 32

  predicate IsNum(c: Byte) { 48 <= c <= 57 }

  /** `c | 0x20` */
  function Lower(c: Byte): Byte
  {
    if c / 32 % 2 == 1 then c else c + 32
  }

  predicate IsAlpha(c: Byte) { 97 <= Lower(c) <= 122 }

  /** `tokens`: the token character in lower case, or zero. */
  function Token(c: Byte): Byte
  {
    if 65 <= c <= 90 then c + 32
    else if IsNum(c) || 97 <= c <= 122 || c == 33 || 35 <= c <= 39 || c == 42 || c == 43 || c == 45 || c == 46
            || 94 <= c <= 96 || c == 124 || c == 126 then c
    else 0
  }

  /** `IS_HEADER_CHAR` */
  predicate IsHeaderChar(c: Byte)
  {
    c == CR || c == LF || c == HT || (c > 31 && c != 127)
  }

  /** `IS_URL_CHAR` */
  predicate IsUrlChar(c: Byte)
  {
    32 < c < 127 && c != 35 && c != 63
  }

  predicate IsMark(c: Byte)
  {
    c == 45 || c == 95 || c == 46 || c == 33 || c == 126 || c == 42 || c == 39 || c == 40 || c == 41
  }

  predicate IsUserinfoChar(c: Byte)
  {
    IsAlpha(c) || IsNum(c) || IsMark(c) || c == 37 || c == 59 || c == 58 || c == 38 || c == 61 || c == 43 || c == 36 || c == 44
  }

  /** `unhex`, -1 for other characters. */
  function Unhex(c: Byte): (r: int)
    ensures -1 <= r < 16
  {
    if IsNum(c) then c - 48
    else if 65 <= c <= 70 then c - 55
    else if 97 <= c <= 102 then c - 87
    else -1
  }

  /** Character `i` of a name is `c`. */
  predicate Is(name: string, i: nat, c: Byte)
  {
    i < |name| && name[i] as int == c
  }

  // ---- State ----

  // The states by the part of the message they belong to.

  datatype StatusPart =
    | Dead | StartReqOrRes | ResOrRespH | StartRes | ResH | ResHT | ResHTT | ResHTTP | ResHttpMajor | ResHttpDot
    | ResHttpMinor | ResHttpEnd | ResFirstStatusCode | ResStatusCode | ResStatusStart | ResStatus
    | ResLineAlmostDone

  datatype RequestPart =
    | StartReq | ReqMethod | ReqSpacesBeforeUrl | ReqHttpStart | ReqHttpH | ReqHttpHT | ReqHttpHTT | ReqHttpHTTP
    | ReqHttpI | ReqHttpIC | ReqHttpMajor | ReqHttpDot | ReqHttpMinor | ReqHttpEnd | ReqLineAlmostDone

  datatype UrlPart =
    | ReqSchema | ReqSchemaSlash | ReqSchemaSlashSlash | ReqServerStart | ReqServer | ReqServerWithAt | ReqPath
    | ReqQueryStringStart | ReqQueryString | ReqFragmentStart | ReqFragment

  datatype HeaderPart =
    | HeaderFieldStart | HeaderField | HeaderValueDiscardWs | HeaderValueDiscardWsAlmostDone
    | HeaderValueDiscardLws | HeaderValueStart | HeaderValue | HeaderValueLws | HeaderAlmostDone
    | HeadersAlmostDone

  datatype BodyPart =
    | ChunkSizeStart | ChunkSize | ChunkParameters | ChunkSizeAlmostDone | HeadersDone | ChunkData
    | ChunkDataAlmostDone | ChunkDataDone | BodyIdentity | BodyIdentityEof | MessageDone

  datatype State =
    | InStatus(s: StatusPart) | InRequest(r: RequestPart) | InUrl(u: UrlPart) | InHeader(h: HeaderPart) | InBody(b: BodyPart)

  datatype HState =
    | General | C | CO | CON
    | MatchConnection | MatchProxyConnection | MatchContentLength | MatchTransferEncoding | MatchUpgrade
    | Connection | ContentLength | ContentLengthNum | ContentLengthWs | TransferEncoding | UpgradeName
    | MatchChunked | TokenStart | MatchKeepAlive | MatchClose | MatchConnUpgrade | ConnToken
    | ChunkedValue | KeepAliveValue | CloseValue | ConnUpgradeValue

  datatype Kind = Request | Response | Both

  /** The `F_` flags. */
  datatype Flags = Flags(chunked: bool, keepAlive: bool, close: bool, connUpgrade: bool,
                         trailing: bool, upgrade: bool, skipBody: bool, contentLength: bool)

  const NO_FLAGS := Flags(false, false, false, false, false, false, false, false)

  /** What is known of the message; `verb` is the name of the method. */
  datatype Message = Message(kind: Kind, verb: string, major: nat, minor: nat, status: nat, flags: Flags, upgrade: bool)

  const ULLONG_MAX: nat := 0xFFFF_FFFF_FFFF_FFFF

  /** `http_parser`; `length` is `content_length`. */
  datatype Parser = Parser(state: State, hstate: HState, index: nat, nread: nat, length: nat, msg: Message)

  /** `http_parser_init` */
  function Init(kind: Kind): Parser
  {
    Parser(if kind == Request then InRequest(StartReq) else if kind == Response then InStatus(StartRes) else InStatus(StartReqOrRes),
           General, 0, 0, 0, Message(kind, "DELETE", 0, 0, 0, NO_FLAGS, false))
  }

  // ---- Callbacks ----

  /** What `on_headers_complete` answers, 0, 1 or 2: go on, the message has no body, or another protocol follows. */
  datatype Answer = ReadBody | NoBody | NewProtocol

  datatype Element = Url | Status | Field | Value | Body

  datatype Note = MessageBegin | HeadersComplete | MessageComplete | ChunkHeader(size: nat) | ChunkComplete

  datatype Event = Data(element: Element, bytes: Bytes) | Notify(note: Note)

  /** Adds a callback; data that goes on where the last callback stopped is joined to it. */
  function Push(log: seq<Event>, e: Event): seq<Event>
  {
    if log != [] && e.Data? && log[|log| - 1].Data? && log[|log| - 1].element == e.element
    then log[..|log| - 1] + [Data(e.element, log[|log| - 1].bytes + e.bytes)]
    else log + [e]
  }

  function PushAll(log: seq<Event>, es: seq<Event>): seq<Event>
    decreases |es|
  {
    if es == [] then log else PushAll(Push(log, es[0]), es[1..])
  }

  lemma PushAllNone(log: seq<Event>)
    ensures PushAll(log, []) == log
  {
  }

  lemma PushAllOne(log: seq<Event>, e: Event)
    ensures PushAll(log, [e]) == Push(log, e)
  {
    assert [e][1..] == [];
  }

  /** One byte leads to an error, or with these callbacks to the end of HTTP on the connection, or on. */
  datatype Step = Rejected | Upgraded(p: Parser, events: seq<Event>) | Next(p: Parser, events: seq<Event>)

  // ---- Message semantics ----

  /** `http_message_needs_eof` */
  predicate NeedsEof(m: Message, length: nat)
  {
    m.kind != Request
    && !(m.status / 100 == 1 || m.status == 204 || m.status == 304 || m.flags.skipBody)
    && !m.flags.chunked && length == ULLONG_MAX
  }

  /** `http_should_keep_alive` */
  predicate ShouldKeepAlive(m: Message, length: nat)
  {
    (if m.major > 0 && m.minor > 0 then !m.flags.close else m.flags.keepAlive) && !NeedsEof(m, length)
  }

  /** `NEW_MESSAGE` */
  function NewMessage(m: Message, length: nat): State
  {
    if !ShouldKeepAlive(m, length) then InStatus(Dead) else if m.kind == Request then InRequest(StartReq) else InStatus(StartRes)
  }

  /** The headers ask for another protocol. */
  predicate Upgrades(m: Message)
  {
    if m.flags.upgrade && m.flags.connUpgrade then m.kind == Request || m.status == 101 else m.verb == "CONNECT"
  }

  // ---- End of message, end of headers ----

  function OnMessageDone(p: Parser): Step
  {
    if p.msg.upgrade then Leave(p) else Complete(p)
  }

  function Complete(p: Parser): Step
  {
    Next(p.(state := NewMessage(p.msg, p.length)), [Notify(MessageComplete)])
  }

  /** The message is complete, and what follows is in another protocol. */
  function Leave(p: Parser): Step
  {
    Upgraded(p.(state := NewMessage(p.msg, p.length)), [Notify(MessageComplete)])
  }

  function Before(es: seq<Event>, r: Step): Step
  {
    if r.Rejected? then r else r.(events := es + r.events)
  }

  /** The header block is over: what follows it. */
  function OnHeadersDone(p0: Parser, b: Byte): Step
  {
    var p := p0.(nread := 0);
    var f := p.msg.flags;
    var hasBody := f.chunked || (p.length > 0 && p.length != ULLONG_MAX);
    if b != LF then Rejected
    else if p.msg.upgrade && (p.msg.verb == "CONNECT" || f.skipBody || !hasBody) then Leave(p)
    else if f.skipBody then Complete(p)
    else if f.chunked then Next(p.(state := InBody(ChunkSizeStart)), [])
    else if p.length == 0 then Complete(p)
    else if p.length != ULLONG_MAX then Next(p.(state := InBody(BodyIdentity)), [])
    else if NeedsEof(p.msg, p.length) then Next(p.(state := InBody(BodyIdentityEof)), [])
    else Complete(p)
  }

  /** `answer` is that of `on_headers_complete`. */
  function OnHeadersAlmostDone(p: Parser, b: Byte, answer: Answer): Step
  {
    var m := p.msg;
    if b != LF then Rejected
    else if m.flags.trailing then Before([Notify(ChunkComplete)], OnMessageDone(p))
    else if m.flags.chunked && m.flags.contentLength then Rejected
    else
      var up := Upgrades(m) || answer == NewProtocol;
      var flags := if answer == ReadBody then m.flags else m.flags.(skipBody := true);
      Before([Notify(HeadersComplete)], OnHeadersDone(p.(state := InBody(HeadersDone), msg := m.(upgrade := up, flags := flags)), b))
  }

  // ---- Header fields ----

  function OnFieldStart(p: Parser, b: Byte, answer: Answer): Step
  {
    if b == CR then Next(p.(state := InHeader(HeadersAlmostDone)), [])
    else if b == LF then OnHeadersAlmostDone(p, b, answer)
    else if Token(b) == 0 then Rejected
    else
      var c := Token(b);
      Next(p.(state := InHeader(HeaderField), index := 0,
              hstate := if c == 99 then C else if c == 112 then MatchProxyConnection else if c == 116 then MatchTransferEncoding
                        else if c == 117 then MatchUpgrade else General),
           [Data(Field, [b])])
  }

  datatype Matcher = Matcher(h: HState, index: nat)

  /** One more character against a header name. */
  function Match(name: string, m: Matcher, c: Byte, done: HState, otherwise: HState): Matcher
  {
    var i := m.index + 1;
    Matcher(if !Is(name, i, c) then otherwise else if i == |name| - 1 then done else m.h, i)
  }

  /** One more character of a header name. */
  function FieldChar(m: Matcher, b: Byte): Matcher
  {
    var c := Token(b);
    match m.h
    case C => Matcher(if c == 111 then CO else General, m.index + 1)
    case CO => Matcher(if c == 110 then CON else General, m.index + 1)
    case CON => Matcher(if c == 110 then MatchConnection else if c == 116 then MatchContentLength else General, m.index + 1)
    case MatchConnection => Match("connection", m, c, Connection, General)
    case MatchProxyConnection => Match("proxy-connection", m, c, Connection, General)
    case MatchContentLength => Match("content-length", m, c, ContentLength, General)
    case MatchTransferEncoding => Match("transfer-encoding", m, c, TransferEncoding, General)
    case MatchUpgrade => Match("upgrade", m, c, UpgradeName, General)
    case Connection => m.(h := if b == SP then Connection else General)
    case ContentLength => m.(h := if b == SP then ContentLength else General)
    case TransferEncoding => m.(h := if b == SP then TransferEncoding else General)
    case UpgradeName => m.(h := if b == SP then UpgradeName else General)
    case _ => m
  }

  function OnField(p: Parser, b: Byte): Step
  {
    if Token(b) != 0 then
      var m := FieldChar(Matcher(p.hstate, p.index), b);
      Next(p.(hstate := m.h, index := m.index), [Data(Field, [b])])
    else if b == 58 then Next(p.(state := InHeader(HeaderValueDiscardWs)), [])
    else Rejected
  }

  // ---- Header values ----

  /** What a character of a value changes: the matcher, the flags and the length; or it is refused. */
  datatype ValueStep = BadValue | ValueStep(m: Matcher, flags: Flags, length: nat)

  /** The first character of a value. */
  function ValueEntry(h: HState, f: Flags, length: nat, b: Byte): ValueStep
  {
    var c := Lower(b);
    match h
    case UpgradeName => ValueStep(Matcher(General, 0), f.(upgrade := true), length)
    case TransferEncoding => ValueStep(Matcher(if c == 99 then MatchChunked else General, 0), f, length)
    case ContentLength =>
      if !IsNum(b) || f.contentLength then BadValue
      else ValueStep(Matcher(ContentLengthNum, 0), f.(contentLength := true), b - 48)
    case ContentLengthWs => ValueStep(Matcher(h, 0), f, length)
    case Connection =>
      ValueStep(Matcher(if c == 107 then MatchKeepAlive else if c == 99 then MatchClose else if c == 117 then MatchConnUpgrade
                        else ConnToken, 0), f, length)
    case TokenStart => ValueStep(Matcher(h, 0), f, length)
    case _ => ValueStep(Matcher(General, 0), f, length)
  }

  /** A character of a value with what it changes. */
  function InValue(p: Parser, v: ValueStep, b: Byte): Step
  {
    if v.BadValue? then Rejected
    else Next(p.(state := InHeader(HeaderValue), hstate := v.m.h, index := v.m.index, length := v.length, msg := p.msg.(flags := v.flags)),
              [Data(Value, [b])])
  }

  function OnValueStart(p: Parser, b: Byte): Step
  {
    InValue(p, ValueEntry(p.hstate, p.msg.flags, p.length, b), b)
  }

  function Listed(h: HState, f: Flags): Flags
  {
    if h == KeepAliveValue then f.(keepAlive := true)
    else if h == CloseValue then f.(close := true)
    else if h == ConnUpgradeValue then f.(connUpgrade := true)
    else f
  }

  function LengthDigit(m: Matcher, f: Flags, length: nat, b: Byte): ValueStep
  {
    if b == SP then ValueStep(m.(h := ContentLengthWs), f, length)
    else if !IsNum(b) || (ULLONG_MAX - 10) / 10 < length then BadValue
    else ValueStep(m.(h := ContentLengthNum), f, length * 10 + (b - 48))
  }

  function ValueChar(m: Matcher, f: Flags, length: nat, b: Byte): ValueStep
  {
    var c := Lower(b);
    match m.h
    case ContentLength => if b == SP then ValueStep(m, f, length) else LengthDigit(m, f, length, b)
    case ContentLengthNum => LengthDigit(m, f, length, b)
    case ContentLengthWs => if b == SP then ValueStep(m, f, length) else BadValue
    case MatchChunked => ValueStep(Match("chunked", m, c, ChunkedValue, General), f, length)
    case TokenStart =>
      ValueStep(m.(h := if c == 107 then MatchKeepAlive else if c == 99 then MatchClose else if c == 117 then MatchConnUpgrade
                        else if Token(c) != 0 then ConnToken else if c == SP || c == HT then TokenStart else General), f, length)
    case MatchKeepAlive => ValueStep(Match("keep-alive", m, c, KeepAliveValue, ConnToken), f, length)
    case MatchClose => ValueStep(Match("close", m, c, CloseValue, ConnToken), f, length)
    case MatchConnUpgrade => ValueStep(Match("upgrade", m, c, ConnUpgradeValue, ConnToken), f, length)
    case ConnToken => ValueStep(if b == 44 then Matcher(TokenStart, 0) else m, f, length)
    case ChunkedValue => ValueStep(m.(h := if b == SP then ChunkedValue else General), f, length)
    case KeepAliveValue => ListedChar(m, f, length, b)
    case CloseValue => ListedChar(m, f, length, b)
    case ConnUpgradeValue => ListedChar(m, f, length, b)
    case _ => ValueStep(m.(h := General), f, length)
  }

  function ListedChar(m: Matcher, f: Flags, length: nat, b: Byte): ValueStep
  {
    if b == 44 then ValueStep(Matcher(TokenStart, 0), Listed(m.h, f), length)
    else ValueStep(if b == SP then m else m.(h := ConnToken), f, length)
  }

  function OnHeaderAlmostDone(p: Parser, b: Byte): Step
  {
    if b != LF then Rejected else Next(p.(state := InHeader(HeaderValueLws)), [])
  }

  function OnValue(p: Parser, b: Byte): Step
  {
    if b == CR then Next(p.(state := InHeader(HeaderAlmostDone)), [])
    else if b == LF then OnHeaderAlmostDone(p.(state := InHeader(HeaderAlmostDone)), b)
    else if !IsHeaderChar(b) then Rejected
    else InValue(p, ValueChar(Matcher(p.hstate, p.index), p.msg.flags, p.length, b), b)
  }

  /** The flags a finished value sets. */
  function Finished(h: HState, f: Flags): Flags
  {
    if h == ChunkedValue then f.(chunked := true) else Listed(h, f)
  }

  function OnValueLws(p: Parser, b: Byte, answer: Answer): Step
  {
    if b == SP || b == HT then
      OnValueStart(p.(hstate := if p.hstate == ContentLengthNum then ContentLengthWs else p.hstate), b)
    else OnFieldStart(p.(state := InHeader(HeaderFieldStart), msg := p.msg.(flags := Finished(p.hstate, p.msg.flags))), b, answer)
  }

  function OnDiscardLws(p: Parser, b: Byte, answer: Answer): Step
  {
    if b == SP || b == HT then Next(p.(state := InHeader(HeaderValueDiscardWs)), [])
    else if p.hstate == ContentLength then Rejected
    else
      Before([Data(Value, [])],
             OnFieldStart(p.(state := InHeader(HeaderFieldStart), msg := p.msg.(flags := Finished(p.hstate, p.msg.flags))), b, answer))
  }

  function OnDiscardWs(p: Parser, b: Byte): Step
  {
    if b == SP || b == HT then Next(p, [])
    else if b == CR then Next(p.(state := InHeader(HeaderValueDiscardWsAlmostDone)), [])
    else if b == LF then Next(p.(state := InHeader(HeaderValueDiscardLws)), [])
    else OnValueStart(p, b)
  }

  // ---- Chunks and bodies ----

  function OnChunkSizeStart(p: Parser, b: Byte): Step
  {
    if Unhex(b) == -1 then Rejected else Next(p.(state := InBody(ChunkSize), length := Unhex(b)), [])
  }

  function OnChunkSize(p: Parser, b: Byte): Step
  {
    if b == CR then Next(p.(state := InBody(ChunkSizeAlmostDone)), [])
    else if Unhex(b) == -1 then if b == 59 || b == SP then Next(p.(state := InBody(ChunkParameters)), []) else Rejected
    else if (ULLONG_MAX - 16) / 16 < p.length then Rejected
    else Next(p.(length := p.length * 16 + Unhex(b)), [])
  }

  function OnChunkSizeAlmostDone(p: Parser, b: Byte): Step
  {
    if b != LF then Rejected
    else if p.length == 0 then
      Next(p.(nread := 0, state := InHeader(HeaderFieldStart), msg := p.msg.(flags := p.msg.flags.(trailing := true))), [Notify(ChunkHeader(0))])
    else Next(p.(nread := 0, state := InBody(ChunkData)), [Notify(ChunkHeader(p.length))])
  }

  function OnChunkData(p: Parser, b: Byte): Step
  {
    if p.length == 0 then Rejected
    else Next(p.(length := p.length - 1, state := if p.length == 1 then InBody(ChunkDataAlmostDone) else InBody(ChunkData)), [Data(Body, [b])])
  }

  function OnBodyIdentity(p: Parser, b: Byte): Step
  {
    if p.length == 0 then Rejected
    else if p.length > 1 then Next(p.(length := p.length - 1), [Data(Body, [b])])
    else Before([Data(Body, [b])], OnMessageDone(p.(length := 0, state := InBody(MessageDone))))
  }

  // ---- Start line of a request ----

  function Reset(p: Parser): Parser
  {
    p.(length := ULLONG_MAX, msg := p.msg.(flags := NO_FLAGS))
  }

  function Expect(p: Parser, b: Byte, c: Byte, next: State): Step
  {
    if b == c then Next(p.(state := next), []) else Rejected
  }

  /** The method assumed from its first letter; the empty string for none. */
  function FirstMethod(b: Byte): string
  {
    if b == 65 then "ACL" else if b == 66 then "BIND" else if b == 67 then "CONNECT" else if b == 68 then "DELETE"
    else if b == 71 then "GET" else if b == 72 then "HEAD" else if b == 76 then "LOCK" else if b == 77 then "MKCOL"
    else if b == 78 then "NOTIFY" else if b == 79 then "OPTIONS" else if b == 80 then "POST" else if b == 82 then "REPORT"
    else if b == 83 then "SUBSCRIBE" else if b == 84 then "TRACE" else if b == 85 then "UNLOCK" else ""
  }

  /** The method assumed instead when letter `b` at position `i` does not fit; the empty string for none. */
  function OtherMethod(verb: string, i: nat, b: Byte): string
  {
    if verb == "POST" && i == 1 then (if b == 85 then "PUT" else if b == 65 then "PATCH" else if b == 82 then "PROPFIND" else "")
    else if verb == "PUT" && i == 2 && b == 82 then "PURGE"
    else if verb == "CONNECT" && i == 1 && b == 72 then "CHECKOUT"
    else if verb == "CONNECT" && i == 2 && b == 80 then "COPY"
    else if verb == "MKCOL" && i == 1 then (if b == 79 then "MOVE" else if b == 69 then "MERGE" else if b == 45 then "M-SEARCH" else "")
    else if verb == "MKCOL" && i == 2 && b == 65 then "MKACTIVITY"
    else if verb == "MKCOL" && i == 3 && b == 65 then "MKCALENDAR"
    else if verb == "SUBSCRIBE" && i == 1 then (if b == 69 then "SEARCH" else if b == 79 then "SOURCE" else "")
    else if verb == "REPORT" && i == 2 && b == 66 then "REBIND"
    else if verb == "PROPFIND" && i == 4 && b == 80 then "PROPPATCH"
    else if verb == "LOCK" && i == 1 && b == 73 then "LINK"
    else if verb == "UNLOCK" && i == 2 then (if b == 83 then "UNSUBSCRIBE" else if b == 66 then "UNBIND" else "")
    else if verb == "UNLOCK" && i == 3 && b == 73 then "UNLINK"
    else ""
  }

  function OnStartReq(p: Parser, b: Byte): Step
  {
    if b == CR || b == LF then Next(p, [])
    else if FirstMethod(b) == "" then Rejected
    else
      var q := Reset(p);
      Next(q.(state := InRequest(ReqMethod), index := 1, msg := q.msg.(verb := FirstMethod(b))), [Notify(MessageBegin)])
  }

  function OnReqMethod(p: Parser, b: Byte): Step
  {
    var verb, q := p.msg.verb, p.(index := p.index + 1);
    if b == SP && p.index == |verb| then Next(q.(state := InRequest(ReqSpacesBeforeUrl)), [])
    else if b != 0 && Is(verb, p.index, b) then Next(q, [])
    else if OtherMethod(verb, p.index, b) == "" then Rejected
    else Next(q.(msg := q.msg.(verb := OtherMethod(verb, p.index, b))), [])
  }

  /** `parse_url_char` */
  datatype UrlStep = BadUrl | Within(u: UrlPart)

  predicate Blank(b: Byte)
  {
    b == SP || b == CR || b == LF || b == HT || b == FF
  }

  /** The first character of the URL; after CONNECT it is that of a server. */
  function FirstUrlChar(connect: bool, b: Byte): UrlStep
  {
    if Blank(b) then BadUrl
    else if connect then ServerChar(b)
    else if b == 47 || b == 42 then Within(ReqPath)
    else if IsAlpha(b) then Within(ReqSchema)
    else BadUrl
  }

  function ParseUrlChar(u: UrlPart, b: Byte): UrlStep
  {
    if Blank(b) then BadUrl
    else
      match u
      case ReqSchema => if IsAlpha(b) then Within(u) else if b == 58 then Within(ReqSchemaSlash) else BadUrl
      case ReqSchemaSlash => if b == 47 then Within(ReqSchemaSlashSlash) else BadUrl
      case ReqSchemaSlashSlash => if b == 47 then Within(ReqServerStart) else BadUrl
      case ReqServerWithAt => if b == 64 then BadUrl else ServerChar(b)
      case ReqServerStart => ServerChar(b)
      case ReqServer => ServerChar(b)
      case ReqPath =>
        if IsUrlChar(b) then Within(u) else if b == 63 then Within(ReqQueryStringStart)
        else if b == 35 then Within(ReqFragmentStart) else BadUrl
      case ReqQueryStringStart => QueryChar(b)
      case ReqQueryString => QueryChar(b)
      case ReqFragmentStart => if IsUrlChar(b) || b == 63 then Within(ReqFragment) else if b == 35 then Within(u) else BadUrl
      case ReqFragment => if IsUrlChar(b) || b == 63 || b == 35 then Within(u) else BadUrl
  }

  function ServerChar(b: Byte): UrlStep
  {
    if b == 47 then Within(ReqPath) else if b == 63 then Within(ReqQueryStringStart) else if b == 64 then Within(ReqServerWithAt)
    else if IsUserinfoChar(b) || b == 91 || b == 93 then Within(ReqServer) else BadUrl
  }

  function QueryChar(b: Byte): UrlStep
  {
    if IsUrlChar(b) || b == 63 then Within(ReqQueryString) else if b == 35 then Within(ReqFragmentStart) else BadUrl
  }

  function UrlByte(p: Parser, w: UrlStep, b: Byte): Step
  {
    if w.BadUrl? then Rejected else Next(p.(state := InUrl(w.u)), [Data(Url, [b])])
  }

  function OnSpacesBeforeUrl(p: Parser, b: Byte): Step
  {
    if b == SP then Next(p, []) else UrlByte(p, FirstUrlChar(p.msg.verb == "CONNECT", b), b)
  }

  /** Whether a blank or a line end may follow. */
  predicate MayEnd(u: UrlPart)
  {
    u != ReqSchema && u != ReqSchemaSlash && u != ReqSchemaSlashSlash && u != ReqServerStart
  }

  function OnUrl(p: Parser, u: UrlPart, b: Byte): Step
  {
    if MayEnd(u) && b == SP then Next(p.(state := InRequest(ReqHttpStart)), [])
    else if MayEnd(u) && (b == CR || b == LF) then
      Next(p.(state := if b == CR then InRequest(ReqLineAlmostDone) else InHeader(HeaderFieldStart),
              msg := p.msg.(major := 0, minor := 9)), [])
    else UrlByte(p, ParseUrlChar(u, b), b)
  }

  function OnHttpStart(p: Parser, b: Byte): Step
  {
    if b == SP then Next(p, [])
    else if b == 72 then Next(p.(state := InRequest(ReqHttpH)), [])
    else if b == 73 && p.msg.verb == "SOURCE" then Next(p.(state := InRequest(ReqHttpI)), [])
    else Rejected
  }

  /** The digits of the version, in requests and responses. */
  function OnMajor(p: Parser, b: Byte, next: State): Step
  {
    if IsNum(b) then Next(p.(state := next, msg := p.msg.(major := b - 48)), []) else Rejected
  }

  function OnMinor(p: Parser, b: Byte, next: State): Step
  {
    if IsNum(b) then Next(p.(state := next, msg := p.msg.(minor := b - 48)), []) else Rejected
  }

  // ---- Start line of a response ----

  function OnStartReqOrRes(p: Parser, b: Byte): Step
  {
    if b == CR || b == LF then Next(p, [])
    else if b == 72 then Next(Reset(p).(state := InStatus(ResOrRespH)), [Notify(MessageBegin)])
    else OnStartReq(p.(state := InRequest(StartReq), msg := p.msg.(kind := Request)), b)
  }

  function OnResOrRespH(p: Parser, b: Byte): Step
  {
    if b == 84 then Next(p.(state := InStatus(ResHT), msg := p.msg.(kind := Response)), [])
    else if b == 69 then Next(p.(state := InRequest(ReqMethod), index := 2, msg := p.msg.(kind := Request, verb := "HEAD")), [])
    else Rejected
  }

  function OnStartRes(p: Parser, b: Byte): Step
  {
    if b == CR || b == LF then Next(p, [])
    else if b == 72 then Next(Reset(p).(state := InStatus(ResH)), [Notify(MessageBegin)])
    else Rejected
  }

  function OnFirstStatusCode(p: Parser, b: Byte): Step
  {
    if IsNum(b) then Next(p.(state := InStatus(ResStatusCode), msg := p.msg.(status := b - 48)), [])
    else if b == SP then Next(p, [])
    else Rejected
  }

  function OnStatusCode(p: Parser, b: Byte): Step
  {
    if b == SP then Next(p.(state := InStatus(ResStatusStart)), [])
    else if b == CR || b == LF then OnStatusStart(p.(state := InStatus(ResStatusStart)), b)
    else if !IsNum(b) || p.msg.status * 10 + (b - 48) > 999 then Rejected
    else Next(p.(msg := p.msg.(status := p.msg.status * 10 + (b - 48))), [])
  }

  function OnStatusStart(p: Parser, b: Byte): Step
  {
    var q := p.(index := 0);
    if b == CR then Next(q.(state := InStatus(ResLineAlmostDone)), [Data(Status, [])])
    else if b == LF then Next(q.(state := InHeader(HeaderFieldStart)), [Data(Status, [])])
    else Next(q.(state := InStatus(ResStatus)), [Data(Status, [b])])
  }

  function OnStatus(p: Parser, b: Byte): Step
  {
    if b == CR then Next(p.(state := InStatus(ResLineAlmostDone)), [])
    else if b == LF then Next(p.(state := InHeader(HeaderFieldStart)), [])
    else Next(p, [Data(Status, [b])])
  }

  // ---- The switch ----

  function OnStatusPart(p: Parser, s: StatusPart, b: Byte): Step
  {
    match s
    case Dead => if b == CR || b == LF then Next(p, []) else Rejected
    case StartReqOrRes => OnStartReqOrRes(p, b)
    case ResOrRespH => OnResOrRespH(p, b)
    case StartRes => OnStartRes(p, b)
    case ResH => Expect(p, b, 84, InStatus(ResHT))
    case ResHT => Expect(p, b, 84, InStatus(ResHTT))
    case ResHTT => Expect(p, b, 80, InStatus(ResHTTP))
    case ResHTTP => Expect(p, b, 47, InStatus(ResHttpMajor))
    case ResHttpMajor => OnMajor(p, b, InStatus(ResHttpDot))
    case ResHttpDot => Expect(p, b, 46, InStatus(ResHttpMinor))
    case ResHttpMinor => OnMinor(p, b, InStatus(ResHttpEnd))
    case ResHttpEnd => Expect(p, b, SP, InStatus(ResFirstStatusCode))
    case ResFirstStatusCode => OnFirstStatusCode(p, b)
    case ResStatusCode => OnStatusCode(p, b)
    case ResStatusStart => OnStatusStart(p, b)
    case ResStatus => OnStatus(p, b)
    case ResLineAlmostDone => Expect(p, b, LF, InHeader(HeaderFieldStart))
  }

  function OnRequestPart(p: Parser, r: RequestPart, b: Byte): Step
  {
    match r
    case StartReq => OnStartReq(p, b)
    case ReqMethod => OnReqMethod(p, b)
    case ReqSpacesBeforeUrl => OnSpacesBeforeUrl(p, b)
    case ReqHttpStart => OnHttpStart(p, b)
    case ReqHttpH => Expect(p, b, 84, InRequest(ReqHttpHT))
    case ReqHttpHT => Expect(p, b, 84, InRequest(ReqHttpHTT))
    case ReqHttpHTT => Expect(p, b, 80, InRequest(ReqHttpHTTP))
    case ReqHttpHTTP => Expect(p, b, 47, InRequest(ReqHttpMajor))
    case ReqHttpI => Expect(p, b, 67, InRequest(ReqHttpIC))
    case ReqHttpIC => Expect(p, b, 69, InRequest(ReqHttpHTTP))
    case ReqHttpMajor => OnMajor(p, b, InRequest(ReqHttpDot))
    case ReqHttpDot => Expect(p, b, 46, InRequest(ReqHttpMinor))
    case ReqHttpMinor => OnMinor(p, b, InRequest(ReqHttpEnd))
    case ReqHttpEnd => if b == CR then Next(p.(state := InRequest(ReqLineAlmostDone)), []) else Expect(p, b, LF, InHeader(HeaderFieldStart))
    case ReqLineAlmostDone => Expect(p, b, LF, InHeader(HeaderFieldStart))
  }

  function OnHeaderPart(p: Parser, h: HeaderPart, b: Byte, answer: Answer): Step
  {
    match h
    case HeaderFieldStart => OnFieldStart(p, b, answer)
    case HeaderField => OnField(p, b)
    case HeaderValueDiscardWs => OnDiscardWs(p, b)
    case HeaderValueDiscardWsAlmostDone => Expect(p, b, LF, InHeader(HeaderValueDiscardLws))
    case HeaderValueDiscardLws => OnDiscardLws(p, b, answer)
    case HeaderValueStart => OnValueStart(p, b)
    case HeaderValue => OnValue(p, b)
    case HeaderValueLws => OnValueLws(p, b, answer)
    case HeaderAlmostDone => OnHeaderAlmostDone(p, b)
    case HeadersAlmostDone => OnHeadersAlmostDone(p, b, answer)
  }

  function OnBodyPart(p: Parser, part: BodyPart, b: Byte): Step
  {
    match part
    case ChunkSizeStart => OnChunkSizeStart(p, b)
    case ChunkSize => OnChunkSize(p, b)
    case ChunkParameters => if b == CR then Next(p.(state := InBody(ChunkSizeAlmostDone)), []) else Next(p, [])
    case ChunkSizeAlmostDone => OnChunkSizeAlmostDone(p, b)
    case HeadersDone => OnHeadersDone(p, b)
    case ChunkData => OnChunkData(p, b)
    case ChunkDataAlmostDone => Expect(p, b, CR, InBody(ChunkDataDone))
    case ChunkDataDone => if b == LF then Next(p.(nread := 0, state := InBody(ChunkSizeStart)), [Notify(ChunkComplete)]) else Rejected
    case BodyIdentity => OnBodyIdentity(p, b)
    case BodyIdentityEof => Next(p, [Data(Body, [b])])
    case MessageDone => OnMessageDone(p)
  }

  function Dispatch(p: Parser, b: Byte, answer: Answer): Step
  {
    match p.state
    case InStatus(s) => OnStatusPart(p, s, b)
    case InRequest(r) => OnRequestPart(p, r, b)
    case InUrl(u) => OnUrl(p, u, b)
    case InHeader(h) => OnHeaderPart(p, h, b, answer)
    case InBody(part) => OnBodyPart(p, part, b)
  }

  // ---- Runs ----

  const MAX_HEADER_SIZE: nat := 80 * 1024

  /** `PARSING_HEADER` */
  predicate ParsingHeader(s: State)
  {
    s.InBody? ==>
      s.b != ChunkData && s.b != ChunkDataAlmostDone && s.b != ChunkDataDone && s.b != BodyIdentity && s.b != BodyIdentityEof
      && s.b != MessageDone
  }

  /** One byte, counted if it belongs to the header. */
  function OnByte(p: Parser, b: Byte, answer: Answer): Step
  {
    if !ParsingHeader(p.state) then Dispatch(p, b, answer)
    else if p.nread + 1 > MAX_HEADER_SIZE then Rejected
    else Dispatch(p.(nread := p.nread + 1), b, answer)
  }

  /**
   * The end of a run: an error, or a state and all callbacks so far. After the change to another
   * protocol `rest` is the input that was not read.
   */
  datatype Outcome = Failed | Switched(p: Parser, log: seq<Event>, rest: Bytes) | Going(p: Parser, log: seq<Event>)

  function Run(p: Parser, log: seq<Event>, s: Bytes, answer: Answer): Outcome
    decreases |s|
  {
    if s == [] then Going(p, log)
    else
      match OnByte(p, s[0], answer)
      case Rejected => Failed
      case Upgraded(q, es) => Switched(q, PushAll(log, es), s[1..])
      case Next(q, es) => Run(q, PushAll(log, es), s[1..], answer)
  }

  /** What one byte leads to. */
  function Stepped(r: Step, log: seq<Event>): Outcome
  {
    match r
    case Rejected => Failed
    case Upgraded(q, es) => Switched(q, PushAll(log, es), [])
    case Next(q, es) => Going(q, PushAll(log, es))
  }

  /** Goes on with more input. */
  function Then(o: Outcome, s: Bytes, answer: Answer): Outcome
  {
    if o.Going? then Run(o.p, o.log, s, answer) else Unread(o, s)
  }

  /** More input that is not read. */
  function Unread(o: Outcome, s: Bytes): Outcome
  {
    if o.Switched? then o.(rest := o.rest + s) else o
  }

  /** Split independence: two pieces amount to one. */
  lemma {:induction false} RunSplit(p: Parser, log: seq<Event>, a: Bytes, b: Bytes, answer: Answer)
    ensures Run(p, log, a + b, answer) == Then(Run(p, log, a, answer), b, answer)
    decreases |a|
  {
    hide OnByte, PushAll;
    if a == [] {
      assert a + b == b;
    } else {
      assert (a + b)[0] == a[0] && (a + b)[1..] == a[1..] + b;
      var r := OnByte(p, a[0], answer);
      if r.Next? {
        RunSplit(r.p, PushAll(log, r.events), a[1..], b, answer);
      }
    }
  }

  function Concat(pieces: seq<Bytes>): Bytes
  {
    if pieces == [] then [] else pieces[0] + Concat(pieces[1..])
  }

  /** One call after the other. */
  function RunPieces(o: Outcome, pieces: seq<Bytes>, answer: Answer): Outcome
    decreases |pieces|
  {
    if pieces == [] then o else RunPieces(Then(o, pieces[0], answer), pieces[1..], answer)
  }

  /** Split independence: any pieces amount to the whole input. */
  lemma {:induction false} SplitIndependence(p: Parser, log: seq<Event>, pieces: seq<Bytes>, answer: Answer)
    ensures RunPieces(Going(p, log), pieces, answer) == Run(p, log, Concat(pieces), answer)
    decreases |pieces|
  {
    hide OnByte, PushAll, Run;
    if pieces == [] {
      RunNone(p, log, answer);
    } else {
      RunSplit(p, log, pieces[0], Concat(pieces[1..]), answer);
      var o := Run(p, log, pieces[0], answer);
      if o.Going? {
        SplitIndependence(o.p, o.log, pieces[1..], answer);
      } else {
        StaysDown(o, pieces[1..], answer);
      }
    }
  }

  lemma RunNone(p: Parser, log: seq<Event>, answer: Answer)
    ensures Run(p, log, [], answer) == Going(p, log)
  {
  }

  lemma {:induction false} StaysDown(o: Outcome, pieces: seq<Bytes>, answer: Answer)
    requires !o.Going?
    ensures RunPieces(o, pieces, answer) == Unread(o, Concat(pieces))
    decreases |pieces|
  {
    if pieces != [] {
      StaysDown(Unread(o, pieces[0]), pieces[1..], answer);
      UnreadTwice(o, pieces[0], Concat(pieces[1..]));
    } else {
      assert o.Switched? ==> o.rest + [] == o.rest;
    }
  }

  lemma UnreadTwice(o: Outcome, a: Bytes, b: Bytes)
    ensures Unread(Unread(o, a), b) == Unread(o, a + b)
  {
    assert o.Switched? ==> o.rest + a + b == o.rest + (a + b);
  }
}
