/** Where messages end and what the connection is good for afterwards, by the bytes of whole messages. */
module HttpPersist {
  import opened Bits
  import opened HttpMachine
  import opened HttpReach
  import opened HttpParsers
  import opened HttpHeaders
  import opened HttpOptions
  import opened HttpFields
  import opened HttpLines
  import opened HttpStart
  import F = HttpFraming

  // ---- The end of a header block ----

  /** The flags a block sets from none. */
  ghost function FlagsOf(ls: Block): Flags
  {
    Flags(SaysChunks(ls), SaysOption(ls, KeepAlive), SaysOption(ls, Close), SaysOption(ls, ConnUpgrade),
          false, WantsUpgrade(ls), false, Lengths(ls) > 0)
  }

  /** A block with at most one length, which is a number and not too large. */
  predicate Acceptable(ls: Block)
  {
    AllProper(ls) && GoodLengths(ls) && Lengths(ls) <= 1
  }

  /** Section 6.3 of RFC 7230: whether the connection persists after a message with this version and these options. */
  predicate Persists(major: nat, minor: nat, f: Flags)
  {
    if major > 0 && minor > 0 then !f.close else f.keepAlive
  }

  /** The parser at the empty line. */
  function AtEmptyLine(q: Parser, n: nat): Parser
  {
    q.(state := InHeader(HeadersAlmostDone), nread := q.nread + n)
  }

  lemma EmptyLineBytes(q: Parser, answer: Answer)
    requires q.state == InHeader(HeaderFieldStart) && q.nread + 1 <= MAX_HEADER_SIZE
    ensures OnByte(q, LF, answer) == OnHeadersAlmostDone(AtEmptyLine(q, 1), LF, answer)
    ensures OnByte(q, CR, answer) == Next(AtEmptyLine(q, 1), [])
    ensures q.nread + 2 <= MAX_HEADER_SIZE ==> OnByte(AtEmptyLine(q, 1), LF, answer) == OnHeadersAlmostDone(AtEmptyLine(q, 2), LF, answer)
  {
    hide OnHeadersDone, NewMessage, Upgrades;
  }

  lemma RunFirst(q: Parser, log: seq<Event>, s: Bytes, answer: Answer)
    requires s != []
    ensures Run(q, log, s, answer) == Then(Stepped(OnByte(q, s[0], answer), log), s[1..], answer)
  {
    hide OnByte, PushAll;
    var r := OnByte(q, s[0], answer);
    assert r.Upgraded? ==> [] + s[1..] == s[1..];
  }

  /** The empty line, from before it. */
  lemma RunEmptyLine(q: Parser, log: seq<Event>, end: Bytes, s: Bytes, answer: Answer)
    requires q.state == InHeader(HeaderFieldStart) && LineEnds(end) && q.nread + |end| <= MAX_HEADER_SIZE
    ensures Run(q, log, end + s, answer) == Then(Stepped(OnHeadersAlmostDone(AtEmptyLine(q, |end|), LF, answer), log), s, answer)
  {
    hide OnByte, Run, OnHeadersAlmostDone, AtEmptyLine;
    EmptyLineBytes(q, answer);
    if end == [LF] {
      assert (end + s)[1..] == s;
      RunFirst(q, log, end + s, answer);
    } else {
      assert (end + s)[1..] == [LF] + s && ([LF] + s)[1..] == s;
      F.RunNext(q, log, end + s, AtEmptyLine(q, 1), answer);
      RunFirst(AtEmptyLine(q, 1), log, [LF] + s, answer);
    }
  }

  // ---- Requests ----

  /** The callbacks of a start line and a block. */
  function HeadLog(log: seq<Event>, l: RequestLine, ls: Block): seq<Event>
  {
    BlockLog(Push(Push(log, Notify(MessageBegin)), Data(Url, l.target)), ls)
  }

  /** The parser after a start line and the lines of a block. */
  ghost predicate BlockRead(ls: Block, m: Message, p: Parser)
  {
    && p.state == InHeader(HeaderFieldStart) && p.msg == m.(flags := FlagsOf(ls))
    && p.length == if Lengths(ls) > 0 then LengthSaid(ls) else ULLONG_MAX
  }

  /** A block after a start line. */
  lemma RunBlockFresh(q: Parser, log: seq<Event>, ls: Block, t: Bytes, answer: Answer) returns (p: Parser)
    requires q.state == InHeader(HeaderFieldStart) && q.length == ULLONG_MAX && q.msg.flags == NO_FLAGS
    requires Acceptable(ls) && q.nread + |Lines(ls)| <= MAX_HEADER_SIZE && t != [] && !IsBlank(t[0])
    ensures BlockRead(ls, q.msg, p) && p.nread == q.nread + |Lines(ls)|
    ensures Run(q, log, Lines(ls) + t, answer) == Run(p, BlockLog(log, ls), t, answer)
  {
    hide Run, Lines, BlockLog, BlockMeaning, GoodLengths, AllProper, SaysOption, SaysChunks, WantsUpgrade, LengthSaid;
    BlockSays(NO_FLAGS, ULLONG_MAX, ls);
    p := RunBlock(q, log, ls, t, answer);
  }

  lemma EndStarts(end: Bytes, s: Bytes)
    requires LineEnds(end)
    ensures end + s != [] && !IsBlank((end + s)[0])
  {
  }

  /** The head of a request and what follows it. */
  datatype Head = Head(line: RequestLine, block: Block, end: Bytes)

  predicate IsHead(h: Head)
  {
    IsRequest(h.line) && Acceptable(h.block) && LineEnds(h.end)
  }

  function HeadText(h: Head): Bytes
  {
    LineText(h.line) + (Lines(h.block) + h.end)
  }

  /** The message a head announces. */
  ghost function MessageOf(q: Parser, h: Head): Message
  {
    Message(q.msg.kind, Name(h.line.verb), h.line.major, h.line.minor, q.msg.status, FlagsOf(h.block), q.msg.upgrade)
  }

  /** A head is read up to its empty line. */
  lemma RunHead(q: Parser, log: seq<Event>, h: Head, s: Bytes, answer: Answer) returns (p: Parser)
    requires q.state == InRequest(StartReq) && IsHead(h) && q.nread + |HeadText(h)| <= MAX_HEADER_SIZE
    ensures p.state == InHeader(HeadersAlmostDone) && p.msg == MessageOf(q, h) && p.nread == q.nread + |HeadText(h)|
    ensures p.length == if Lengths(h.block) > 0 then LengthSaid(h.block) else ULLONG_MAX
    ensures Run(q, log, HeadText(h) + s, answer) ==
            Then(Stepped(OnHeadersAlmostDone(p, LF, answer), HeadLog(log, h.line, h.block)), s, answer)
  {
    var l, ls, log1 := h.line, h.block, Push(Push(log, Notify(MessageBegin)), Data(Url, h.line.target));
    var t := h.end + s;
    assert HeadText(h) + s == LineText(l) + (Lines(ls) + t);
    hide Run, Push, LineText, Lines, OnHeadersAlmostDone, IsRequest, Acceptable, BlockLog, Lengths, LengthSaid, FlagsOf;
    EndStarts(h.end, s);
    var q1 := RunRequestLine(q, log, l, answer);
    RunSplit(q, log, LineText(l), Lines(ls) + t, answer);
    var q2 := RunBlockFresh(q1, log1, ls, t, answer);
    RunEmptyLine(q2, BlockLog(log1, ls), h.end, s, answer);
    p := AtEmptyLine(q2, |h.end|);
  }

  // ---- What a connection is good for after a message ----

  /** Where the parser is after a message. */
  function Afterwards(kind: Kind, persists: bool): State
  {
    if !persists then InStatus(Dead) else if kind == Request then InRequest(StartReq) else InStatus(StartRes)
  }

  lemma AfterMessage(m: Message, length: nat)
    ensures NewMessage(m, length) == Afterwards(m.kind, Persists(m.major, m.minor, m.flags) && !NeedsEof(m, length))
  {
    hide NeedsEof;
  }

  /** The body the head announces has this length. */
  function BodyLength(ls: Block): nat
  {
    if Lengths(ls) > 0 then LengthSaid(ls) else 0
  }

  lemma {:induction false} LengthBelow(ls: Block)
    requires GoodLengths(ls) && Lengths(ls) > 0
    ensures LengthSaid(ls) < ULLONG_MAX
  {
    hide Content, LengthLine;
    GoodFirst(ls);
    if LengthLine(ls[0]) {
      var c := Content(ls[0]);
      F.FitsBelow(0, c[..DigitRun(c)]);
    } else {
      LengthBelow(ls[1..]);
    }
  }

  /** The callbacks of a body of known length. */
  function BodyLog(log: seq<Event>, body: Bytes): seq<Event>
  {
    var log1 := Push(log, Notify(HeadersComplete));
    Push(if body == [] then log1 else Push(log1, Data(Body, body)), Notify(MessageComplete))
  }

  /** A request that asks for another protocol. */
  ghost predicate AsksUpgrade(ls: Block)
  {
    WantsUpgrade(ls) && SaysOption(ls, ConnUpgrade)
  }

  // ---- Requests with a body of known length ----

  /** At the empty line of a request without chunks. */
  lemma EndsSized(p: Parser)
    requires p.msg.kind == Request && !p.msg.flags.trailing && !p.msg.flags.chunked && !p.msg.flags.skipBody && !Upgrades(p.msg)
    ensures var q := p.(nread := 0, msg := p.msg.(upgrade := false));
            OnHeadersAlmostDone(p, LF, ReadBody) ==
            if p.length == 0 || p.length == ULLONG_MAX
            then Next(q.(state := Afterwards(Request, Persists(p.msg.major, p.msg.minor, p.msg.flags))), [Notify(HeadersComplete), Notify(MessageComplete)])
            else Next(q.(state := InBody(BodyIdentity)), [Notify(HeadersComplete)])
  {
    AfterMessage(p.msg.(upgrade := false), p.length);
    hide NewMessage, Upgrades;
  }

  lemma PushBoth(log: seq<Event>)
    ensures PushAll(log, [Notify(HeadersComplete), Notify(MessageComplete)]) == BodyLog(log, [])
    ensures PushAll(log, [Notify(HeadersComplete)]) == Push(log, Notify(HeadersComplete))
  {
    var es := [Notify(HeadersComplete), Notify(MessageComplete)];
    assert es[1..] == [Notify(MessageComplete)];
    PushAllOne(log, Notify(HeadersComplete));
    PushAllOne(Push(log, Notify(HeadersComplete)), Notify(MessageComplete));
    hide Push;
  }

  /** The body of a message, all of it there. */
  lemma RunBody(p: Parser, log: seq<Event>, body: Bytes, rest: Bytes) returns (q: Parser)
    requires p.state == InBody(BodyIdentity) && body != [] && p.length == |body| < ULLONG_MAX && !p.msg.upgrade
    ensures q == p.(length := 0, state := Afterwards(p.msg.kind, Persists(p.msg.major, p.msg.minor, p.msg.flags)))
    ensures Run(p, log, body + rest, ReadBody) == Run(q, Push(Push(log, Data(Body, body)), Notify(MessageComplete)), rest, ReadBody)
  {
    RunIdentityAll(p, log, body + rest, |body|, ReadBody);
    assert (body + rest)[..|body|] == body && (body + rest)[|body|..] == rest;
    AfterMessage(p.msg, 0);
    PushAllOne(Push(log, Data(Body, body)), Notify(MessageComplete));
    q := p.(length := 0, state := Afterwards(p.msg.kind, Persists(p.msg.major, p.msg.minor, p.msg.flags)));
    hide Run, Push, NewMessage;
  }

  /** The options of a request decide about the connection. */
  ghost predicate KeepsOpen(l: RequestLine, ls: Block)
  {
    if l.major > 0 && l.minor > 0 then !SaysOption(ls, Close) else SaysOption(ls, KeepAlive)
  }

  /** A request that is neither chunked nor asks for another protocol, and its body. */
  ghost predicate IsSized(h: Head, body: Bytes)
  {
    IsHead(h) && !SaysChunks(h.block) && !AsksUpgrade(h.block) && |body| == BodyLength(h.block)
  }

  /** Such a head announces no other protocol and no chunks. */
  lemma SizedFlags(q: Parser, h: Head, body: Bytes)
    requires IsSized(h, body) && q.msg.kind == Request
    ensures var m := MessageOf(q, h);
            && !m.flags.trailing && !m.flags.chunked && !m.flags.skipBody && !Upgrades(m)
            && (Persists(m.major, m.minor, m.flags) <==> KeepsOpen(h.line, h.block))
    ensures Lengths(h.block) > 0 ==> LengthSaid(h.block) < ULLONG_MAX
  {
    if Lengths(h.block) > 0 {
      LengthBelow(h.block);
    }
    LettersOf(h.line);
    hide SaysChunks, SaysOption, WantsUpgrade, Lengths, LengthSaid, Name;
  }

  /**
   * A whole request with a body of known length, or none: its body is delivered, and after it the parser is
   * ready for the next request if the connection persists, and dead if not. It persists for HTTP/1.1 unless
   * an option says `close`, and for HTTP/1.0 if and only if one says `keep-alive`.
   */
  lemma SizedRequest(q: Parser, log: seq<Event>, h: Head, body: Bytes, rest: Bytes) returns (p: Parser)
    requires q.state == InRequest(StartReq) && q.msg.kind == Request && IsSized(h, body) && q.nread + |HeadText(h)| <= MAX_HEADER_SIZE
    ensures p.state == (if KeepsOpen(h.line, h.block) then InRequest(StartReq) else InStatus(Dead)) && p.nread == 0 && p.msg.kind == Request
    ensures Run(q, log, HeadText(h) + (body + rest), ReadBody) ==
            Run(p, BodyLog(HeadLog(log, h.line, h.block), body), rest, ReadBody)
  {
    var log1 := HeadLog(log, h.line, h.block);
    hide Run, Push, HeadText, HeadLog, IsHead, OnHeadersAlmostDone, FlagsOf, Upgrades, Lengths, LengthSaid, KeepsOpen, Persists;
    assert IsHead(h);
    SizedFlags(q, h, body);
    var p1 := RunHead(q, log, h, body + rest, ReadBody);
    EndsSized(p1);
    PushBoth(log1);
    var q1 := p1.(nread := 0, msg := p1.msg.(upgrade := false));
    p := q1.(state := Afterwards(Request, Persists(p1.msg.major, p1.msg.minor, p1.msg.flags)));
    if body == [] {
      assert body + rest == rest;
    } else {
      p := RunBody(q1.(state := InBody(BodyIdentity)), Push(log1, Notify(HeadersComplete)), body, rest);
    }
  }

  // ---- After the last request ----

  /** A connection that does not persist takes nothing but line ends. */
  lemma {:induction false} DeadRefuses(p: Parser, log: seq<Event>, s: Bytes, answer: Answer)
    requires p.state == InStatus(Dead)
    ensures Run(p, log, s, answer) == Failed
            || (Run(p, log, s, answer) == Going(p.(nread := p.nread + |s|), log) && forall i :: 0 <= i < |s| ==> s[i] == CR || s[i] == LF)
    decreases |s|
  {
    hide Run, OnByte;
    if s == [] {
      RunNone(p, log, answer);
    } else {
      DeadByte(p, s[0], answer);
      if OnByte(p, s[0], answer).Rejected? {
        F.RunReject(p, log, s, answer);
      } else {
        var p1 := p.(nread := p.nread + 1);
        F.RunNext(p, log, s, p1, answer);
        DeadRefuses(p1, log, s[1..], answer);
        assert forall i :: 0 < i < |s| ==> s[i] == s[1..][i - 1];
      }
    }
  }

  lemma DeadByte(p: Parser, b: Byte, answer: Answer)
    requires p.state == InStatus(Dead)
    ensures OnByte(p, b, answer).Rejected? || (OnByte(p, b, answer) == Next(p.(nread := p.nread + 1), []) && (b == CR || b == LF))
  {
  }

  // ---- Pipelines ----

  datatype Sized = Sized(head: Head, body: Bytes)

  /** Requests one after the other. */
  function Pipeline(rs: seq<Sized>): Bytes
  {
    if rs == [] then [] else HeadText(rs[0].head) + (rs[0].body + Pipeline(rs[1..]))
  }

  ghost predicate AllSized(rs: seq<Sized>)
  {
    forall i :: 0 <= i < |rs| ==> IsSized(rs[i].head, rs[i].body) && |HeadText(rs[i].head)| <= MAX_HEADER_SIZE
  }

  ghost predicate Keeps(r: Sized)
  {
    KeepsOpen(r.head.line, r.head.block)
  }

  function PipelineLog(log: seq<Event>, rs: seq<Sized>): seq<Event>
    decreases |rs|
  {
    if rs == [] then log else PipelineLog(BodyLog(HeadLog(log, rs[0].head.line, rs[0].head.block), rs[0].body), rs[1..])
  }

  /**
   * Any requests on one connection: all of them are read, with these callbacks, if and only if each but
   * the last keeps the connection open; otherwise the input is refused.
   */
  lemma {:induction false} PipelineRead(q: Parser, log: seq<Event>, rs: seq<Sized>)
    requires q.state == InRequest(StartReq) && q.msg.kind == Request && q.nread == 0 && AllSized(rs)
    ensures var o := Run(q, log, Pipeline(rs), ReadBody);
            if forall i :: 0 <= i < |rs| - 1 ==> Keeps(rs[i]) then
              o.Going? && o.log == PipelineLog(log, rs)
              && o.p.state == if rs == [] || Keeps(rs[|rs| - 1]) then InRequest(StartReq) else InStatus(Dead)
            else o == Failed
    decreases |rs|
  {
    hide Run, Push, HeadText, BodyLog, HeadLog, KeepsOpen, IsSized;
    if rs == [] {
      RunNone(q, log, ReadBody);
    } else {
      var r, more := rs[0], rs[1..];
      var log1 := BodyLog(HeadLog(log, r.head.line, r.head.block), r.body);
      var p := SizedRequest(q, log, r.head, r.body, Pipeline(more));
      assert forall i :: 0 < i < |rs| ==> rs[i] == more[i - 1];
      assert forall i :: 0 <= i < |more| ==> more[i] == rs[i + 1];
      if Keeps(r) {
        PipelineRead(p, log1, more);
      } else if more == [] {
        RunNone(p, log1, ReadBody);
      } else {
        DeadRefuses(p, log1, Pipeline(more), ReadBody);
        PipelineStarts(more);
      }
    }
  }

  lemma PipelineStarts(rs: seq<Sized>)
    requires rs != [] && AllSized(rs)
    ensures var s := Pipeline(rs); s != [] && s[0] != CR && s[0] != LF
  {
    var l := rs[0].head.line;
    assert IsSized(rs[0].head, rs[0].body);
    LettersOf(l);
    assert HeadText(rs[0].head)[0] == l.letters[0];
    hide IsSized, IsRequest, Acceptable;
  }

  // ---- Chunked requests ----

  ghost predicate IsChunked(h: Head)
  {
    IsHead(h) && SaysChunks(h.block) && Lengths(h.block) == 0 && !AsksUpgrade(h.block)
  }

  /** At the empty line of a chunked message. */
  lemma EndsChunked(p: Parser)
    requires !p.msg.flags.trailing && p.msg.flags.chunked && !p.msg.flags.contentLength && !p.msg.flags.skipBody && !Upgrades(p.msg)
    ensures OnHeadersAlmostDone(p, LF, ReadBody) ==
            Next(p.(nread := 0, msg := p.msg.(upgrade := false), state := InBody(ChunkSizeStart)), [Notify(HeadersComplete)])
  {
    hide NewMessage, Upgrades, NeedsEof;
  }

  /** At the empty line of a trailer. */
  lemma EndsTrailer(p: Parser, answer: Answer)
    requires p.msg.flags.trailing && !p.msg.upgrade
    ensures OnHeadersAlmostDone(p, LF, answer) ==
            Next(p.(state := NewMessage(p.msg, p.length)), [Notify(ChunkComplete), Notify(MessageComplete)])
  {
    hide NewMessage;
    assert [Notify(ChunkComplete)] + [Notify(MessageComplete)] == [Notify(ChunkComplete), Notify(MessageComplete)];
  }

  /** Chunks up to the last one, and nothing more. */
  predicate IsBody(s: Bytes)
  {
    F.Unchunk(s).Whole? && F.Unchunk(s).used == |s|
  }

  /** The callbacks of a chunked body and its trailer. */
  function ChunkedLog(log: seq<Event>, s: Bytes, trailer: Block): seq<Event>
    requires IsBody(s)
  {
    var log1 := F.AllPieces(Push(log, Notify(HeadersComplete)), F.Unchunk(s).pieces);
    Push(Push(BlockLog(log1, trailer), Notify(ChunkComplete)), Notify(MessageComplete))
  }

  lemma PushTrailer(log: seq<Event>)
    ensures PushAll(log, [Notify(ChunkComplete), Notify(MessageComplete)]) == Push(Push(log, Notify(ChunkComplete)), Notify(MessageComplete))
  {
    var es := [Notify(ChunkComplete), Notify(MessageComplete)];
    assert es[1..] == [Notify(MessageComplete)];
    PushAllOne(Push(log, Notify(ChunkComplete)), Notify(MessageComplete));
    hide Push;
  }

  /** The flags once the trailer is read. */
  ghost function WithTrailer(f: Flags, trailer: Block): Flags
  {
    f.(close := f.close || SaysOption(trailer, Close), keepAlive := f.keepAlive || SaysOption(trailer, KeepAlive))
  }

  /** A trailer completes the message; its options count as well. */
  lemma RunTrailerBlock(p: Parser, log: seq<Event>, trailer: Block, end: Bytes, rest: Bytes, answer: Answer) returns (q: Parser)
    requires p.state == InHeader(HeaderFieldStart) && p.nread == 0 && p.msg.flags.chunked && p.msg.flags.trailing
    requires !p.msg.flags.contentLength && !p.msg.upgrade
    requires Acceptable(trailer) && LineEnds(end) && |Lines(trailer)| + |end| <= MAX_HEADER_SIZE
    ensures q.msg.kind == p.msg.kind
    ensures q.state == Afterwards(p.msg.kind, Persists(p.msg.major, p.msg.minor, WithTrailer(p.msg.flags, trailer)))
    ensures Run(p, log, Lines(trailer) + (end + rest), answer) ==
            Run(q, Push(Push(BlockLog(log, trailer), Notify(ChunkComplete)), Notify(MessageComplete)), rest, answer)
  {
    hide Run, Push, Lines, BlockLog, BlockMeaning, GoodLengths, AllProper, SaysOption, SaysChunks, WantsUpgrade, LengthSaid,
         OnHeadersAlmostDone, NewMessage, LineEnds;
    EndStarts(end, rest);
    BlockSays(p.msg.flags, p.length, trailer);
    var p2 := RunBlock(p, log, trailer, end + rest, answer);
    RunEmptyLine(p2, BlockLog(log, trailer), end, rest, answer);
    var p3 := AtEmptyLine(p2, |end|);
    EndsTrailer(p3, answer);
    PushTrailer(BlockLog(log, trailer));
    AfterMessage(p3.msg, p3.length);
    q := p3.(state := NewMessage(p3.msg, p3.length));
  }

  /** A chunked body with its trailer. */
  lemma RunChunks(p: Parser, log: seq<Event>, s: Bytes, trailer: Block, end: Bytes, rest: Bytes, answer: Answer) returns (q: Parser)
    requires p.state == InBody(ChunkSizeStart) && p.nread == 0 && p.msg.flags.chunked && !p.msg.flags.contentLength && !p.msg.upgrade
    requires IsBody(s) && Acceptable(trailer) && LineEnds(end) && |Lines(trailer)| + |end| <= MAX_HEADER_SIZE
    ensures q.msg.kind == p.msg.kind
    ensures q.state == Afterwards(p.msg.kind, Persists(p.msg.major, p.msg.minor, WithTrailer(p.msg.flags, trailer)))
    ensures var log1 := F.AllPieces(log, F.Unchunk(s).pieces);
            Run(p, log, s + ((Lines(trailer) + end) + rest), answer) ==
            Run(q, Push(Push(BlockLog(log1, trailer), Notify(ChunkComplete)), Notify(MessageComplete)), rest, answer)
  {
    var log1, t := F.AllPieces(log, F.Unchunk(s).pieces), Lines(trailer) + (end + rest);
    var p1 := F.AfterLine(p, 0);
    assert s[|s|..] == [] && (Lines(trailer) + end) + rest == t;
    hide Run, Push, Lines, BlockLog, Acceptable, LineEnds, SaysOption;
    F.ChunkedBody(p, log, s, answer);
    RunNone(p1, log1, answer);
    RunSplit(p, log, s, t, answer);
    q := RunTrailerBlock(p1, log1, trailer, end, rest, answer);
  }

  /**
   * A whole chunked request with its trailer: the body is the data of its chunks, and the connection is good
   * for another request by the same rule, the options of the trailer included.
   */
  lemma ChunkedRequest(q: Parser, log: seq<Event>, h: Head, s: Bytes, trailer: Block, end: Bytes, rest: Bytes) returns (p: Parser)
    requires q.state == InRequest(StartReq) && q.msg.kind == Request && IsChunked(h) && q.nread + |HeadText(h)| <= MAX_HEADER_SIZE
    requires IsBody(s) && Acceptable(trailer) && LineEnds(end) && |Lines(trailer)| + |end| <= MAX_HEADER_SIZE
    ensures p.state ==
            if (if h.line.major > 0 && h.line.minor > 0 then !SaysOption(h.block, Close) && !SaysOption(trailer, Close)
                else SaysOption(h.block, KeepAlive) || SaysOption(trailer, KeepAlive))
            then InRequest(StartReq) else InStatus(Dead)
    ensures Run(q, log, HeadText(h) + (s + ((Lines(trailer) + end) + rest)), ReadBody) ==
            Run(p, ChunkedLog(HeadLog(log, h.line, h.block), s, trailer), rest, ReadBody)
  {
    var log1 := HeadLog(log, h.line, h.block);
    var t := s + ((Lines(trailer) + end) + rest);
    ChunkedFlags(q, h);
    hide Run, Push, HeadText, HeadLog, IsHead, OnHeadersAlmostDone, Upgrades, Lengths, LengthSaid, Lines, BlockLog, SaysOption, SaysChunks, WantsUpgrade, IsBody, Acceptable, LineEnds;
    var p1 := RunHead(q, log, h, t, ReadBody);
    EndsChunked(p1);
    PushBoth(log1);
    var p2 := p1.(nread := 0, msg := p1.msg.(upgrade := false), state := InBody(ChunkSizeStart));
    p := RunChunks(p2, Push(log1, Notify(HeadersComplete)), s, trailer, end, rest, ReadBody);
  }

  lemma ChunkedFlags(q: Parser, h: Head)
    requires IsChunked(h) && q.msg.kind == Request
    ensures var m := MessageOf(q, h);
            IsHead(h) && !m.flags.trailing && m.flags.chunked && !m.flags.contentLength && !m.flags.skipBody && !Upgrades(m)
  {
    LettersOf(h.line);
    hide SaysOption, WantsUpgrade, Lengths, Name;
  }

  /** A request with both a length and chunks is refused. */
  lemma BothRefused(q: Parser, log: seq<Event>, h: Head, s: Bytes, answer: Answer)
    requires q.state == InRequest(StartReq) && IsHead(h) && q.nread + |HeadText(h)| <= MAX_HEADER_SIZE
    requires SaysChunks(h.block) && Lengths(h.block) > 0
    ensures Run(q, log, HeadText(h) + s, answer) == Failed
  {
    var m := MessageOf(q, h);
    assert m.flags.chunked && m.flags.contentLength && !m.flags.trailing;
    hide Run, HeadText, HeadLog, IsHead, FlagsOf, Lengths, LengthSaid, SaysChunks;
    var p := RunHead(q, log, h, s, answer);
  }

  // ---- Other protocols ----

  /** A request without a body that asks for another protocol: nothing after its head is read. */
  lemma UpgradeRequest(q: Parser, log: seq<Event>, h: Head, rest: Bytes) returns (p: Parser)
    requires q.state == InRequest(StartReq) && q.msg.kind == Request && IsHead(h) && q.nread + |HeadText(h)| <= MAX_HEADER_SIZE
    requires AsksUpgrade(h.block) && !SaysChunks(h.block) && BodyLength(h.block) == 0
    ensures p.msg.upgrade && p.state == if KeepsOpen(h.line, h.block) then InRequest(StartReq) else InStatus(Dead)
    ensures Run(q, log, HeadText(h) + rest, ReadBody) == Switched(p, BodyLog(HeadLog(log, h.line, h.block), []), rest)
  {
    var log1 := HeadLog(log, h.line, h.block);
    var m := MessageOf(q, h);
    LettersOf(h.line);
    assert !m.flags.chunked && m.flags.upgrade && m.flags.connUpgrade && !m.flags.trailing;
    assert Persists(m.major, m.minor, m.flags) <==> KeepsOpen(h.line, h.block);
    hide Run, Push, HeadText, HeadLog, IsHead, OnHeadersAlmostDone, Lengths, LengthSaid, SaysOption, WantsUpgrade, SaysChunks, Persists, KeepsOpen, FlagsOf;
    var p1 := RunHead(q, log, h, rest, ReadBody);
    EndsUpgrade(p1);
    PushBoth(log1);
    p := p1.(nread := 0, msg := p1.msg.(upgrade := true), state := Afterwards(Request, Persists(m.major, m.minor, m.flags)));
    assert [] + rest == rest;
  }

  lemma EndsUpgrade(p: Parser)
    requires p.msg.kind == Request && !p.msg.flags.trailing && !p.msg.flags.chunked && p.msg.flags.upgrade && p.msg.flags.connUpgrade
    requires p.length == 0 || p.length == ULLONG_MAX
    ensures OnHeadersAlmostDone(p, LF, ReadBody) ==
            Upgraded(p.(nread := 0, msg := p.msg.(upgrade := true), state := Afterwards(Request, Persists(p.msg.major, p.msg.minor, p.msg.flags))),
                     [Notify(HeadersComplete), Notify(MessageComplete)])
  {
    AfterMessage(p.msg.(upgrade := true), p.length);
    hide NewMessage;
  }

  // ---- Responses ----

  /** The head of a response. */
  datatype Reply = Reply(line: StatusLine, block: Block, end: Bytes)

  predicate IsReply(h: Reply)
  {
    IsResponse(h.line) && Acceptable(h.block) && LineEnds(h.end)
  }

  function ReplyText(h: Reply): Bytes
  {
    StatusText(h.line) + (Lines(h.block) + h.end)
  }

  function ReplyLog(log: seq<Event>, h: Reply): seq<Event>
  {
    BlockLog(Push(Push(log, Notify(MessageBegin)), Data(Status, h.line.reason)), h.block)
  }

  ghost function ReplyMessage(q: Parser, h: Reply): Message
  {
    Message(q.msg.kind, q.msg.verb, h.line.major, h.line.minor, StatusOf(h.line), FlagsOf(h.block), q.msg.upgrade)
  }

  lemma RunReplyHead(q: Parser, log: seq<Event>, h: Reply, s: Bytes, answer: Answer) returns (p: Parser)
    requires q.state == InStatus(StartRes) && IsReply(h) && q.nread + |ReplyText(h)| <= MAX_HEADER_SIZE
    ensures p.state == InHeader(HeadersAlmostDone) && p.msg == ReplyMessage(q, h)
    ensures p.length == if Lengths(h.block) > 0 then LengthSaid(h.block) else ULLONG_MAX
    ensures Run(q, log, ReplyText(h) + s, answer) == Then(Stepped(OnHeadersAlmostDone(p, LF, answer), ReplyLog(log, h)), s, answer)
  {
    var l, ls, log1 := h.line, h.block, Push(Push(log, Notify(MessageBegin)), Data(Status, h.line.reason));
    var t := h.end + s;
    assert ReplyText(h) + s == StatusText(l) + (Lines(ls) + t);
    hide Run, Push, StatusText, Lines, OnHeadersAlmostDone, IsResponse, Acceptable, BlockLog, Lengths, LengthSaid, FlagsOf;
    EndStarts(h.end, s);
    var q1 := RunStatusLine(q, log, l, answer);
    RunSplit(q, log, StatusText(l), Lines(ls) + t, answer);
    var q2 := RunBlockFresh(q1, log1, ls, t, answer);
    RunEmptyLine(q2, BlockLog(log1, ls), h.end, s, answer);
    p := AtEmptyLine(q2, |h.end|);
  }

  ghost predicate ReplyKeepsOpen(h: Reply)
  {
    if h.line.major > 0 && h.line.minor > 0 then !SaysOption(h.block, Close) else SaysOption(h.block, KeepAlive)
  }

  /** A response that changes to another protocol. */
  ghost predicate Switches(h: Reply)
  {
    StatusOf(h.line) == 101 && AsksUpgrade(h.block)
  }

  /** A response that never has a body: by its status, or because the application says so, as for HEAD. */
  predicate Bodiless(h: Reply, answer: Answer)
  {
    var status := StatusOf(h.line);
    100 <= status < 200 || status == 204 || status == 304 || answer == NoBody
  }

  /** At the empty line of a response without a length. */
  lemma EndsUnsized(p: Parser, answer: Answer)
    requires p.msg.kind == Response && !p.msg.flags.trailing && !p.msg.flags.chunked && !p.msg.flags.skipBody && p.length == ULLONG_MAX
    requires !Upgrades(p.msg) && answer != NewProtocol
    ensures var bodiless := 100 <= p.msg.status < 200 || p.msg.status == 204 || p.msg.status == 304 || answer == NoBody;
            var f := if answer == NoBody then p.msg.flags.(skipBody := true) else p.msg.flags;
            var q := p.(nread := 0, msg := p.msg.(upgrade := false, flags := f));
            OnHeadersAlmostDone(p, LF, answer) ==
            if bodiless
            then Next(q.(state := Afterwards(Response, Persists(p.msg.major, p.msg.minor, p.msg.flags))), [Notify(HeadersComplete), Notify(MessageComplete)])
            else Next(q.(state := InBody(BodyIdentityEof)), [Notify(HeadersComplete)])
  {
    var f := if answer == NoBody then p.msg.flags.(skipBody := true) else p.msg.flags;
    AfterMessage(p.msg.(upgrade := false, flags := f), p.length);
    hide NewMessage, Upgrades;
  }

  lemma ReplyFlags(q: Parser, h: Reply)
    requires q.msg.kind == Response && q.msg.verb != "CONNECT" && !SaysChunks(h.block) && !Switches(h)
    ensures var m := ReplyMessage(q, h);
            && !m.flags.trailing && !m.flags.chunked && !m.flags.skipBody && !Upgrades(m)
            && (Persists(m.major, m.minor, m.flags) <==> ReplyKeepsOpen(h))
  {
    hide SaysOption, SaysChunks, WantsUpgrade, Lengths;
  }

  /**
   * A response without a length: either its status or the application says that it has no body, and the
   * connection persists by its version and options; or everything up to the end of the connection is its
   * body, and the end of the connection completes it.
   */
  lemma UnsizedReply(q: Parser, log: seq<Event>, h: Reply, rest: Bytes, answer: Answer) returns (p: Parser)
    requires q.state == InStatus(StartRes) && q.msg.kind == Response && q.msg.verb != "CONNECT" && answer != NewProtocol
    requires IsReply(h) && q.nread + |ReplyText(h)| <= MAX_HEADER_SIZE && !SaysChunks(h.block) && Lengths(h.block) == 0 && !Switches(h)
    ensures var log1 := Push(ReplyLog(log, h), Notify(HeadersComplete));
            if Bodiless(h, answer) then
              && p.state == (if ReplyKeepsOpen(h) then InStatus(StartRes) else InStatus(Dead))
              && Run(q, log, ReplyText(h) + rest, answer) == Run(p, Push(log1, Notify(MessageComplete)), rest, answer)
            else
              && p.state == InBody(BodyIdentityEof) && AcceptsEof(p.state) && EofEvents(p.state) == [Notify(MessageComplete)]
              && Run(q, log, ReplyText(h) + rest, answer) == Going(p, if rest == [] then log1 else Push(log1, Data(Body, rest)))
  {
    var log1 := ReplyLog(log, h);
    ReplyFlags(q, h);
    hide Run, Push, ReplyText, ReplyLog, IsReply, OnHeadersAlmostDone, Upgrades, Lengths, LengthSaid, Persists, ReplyKeepsOpen, FlagsOf, StatusOf;
    var p1 := RunReplyHead(q, log, h, rest, answer);
    EndsUnsized(p1, answer);
    PushBoth(log1);
    var r := OnHeadersAlmostDone(p1, LF, answer);
    p := r.p;
    if !Bodiless(h, answer) {
      if rest == [] {
        RunNone(p, Push(log1, Notify(HeadersComplete)), answer);
      } else {
        RunEof(p, Push(log1, Notify(HeadersComplete)), rest, answer);
      }
    }
  }

  /** At the empty line of a response with a length. */
  lemma EndsSizedReply(p: Parser)
    requires p.msg.kind == Response && !p.msg.flags.trailing && !p.msg.flags.chunked && !p.msg.flags.skipBody && p.length < ULLONG_MAX
    requires !Upgrades(p.msg)
    ensures var q := p.(nread := 0, msg := p.msg.(upgrade := false));
            OnHeadersAlmostDone(p, LF, ReadBody) ==
            if p.length == 0
            then Next(q.(state := Afterwards(Response, Persists(p.msg.major, p.msg.minor, p.msg.flags))), [Notify(HeadersComplete), Notify(MessageComplete)])
            else Next(q.(state := InBody(BodyIdentity)), [Notify(HeadersComplete)])
  {
    AfterMessage(p.msg.(upgrade := false), p.length);
    hide NewMessage, Upgrades;
  }

  /** A response with a length, whatever its status, and its body. */
  lemma SizedReply(q: Parser, log: seq<Event>, h: Reply, body: Bytes, rest: Bytes) returns (p: Parser)
    requires q.state == InStatus(StartRes) && q.msg.kind == Response && q.msg.verb != "CONNECT"
    requires IsReply(h) && q.nread + |ReplyText(h)| <= MAX_HEADER_SIZE && !SaysChunks(h.block) && !Switches(h)
    requires Lengths(h.block) > 0 && |body| == LengthSaid(h.block)
    ensures p.state == if ReplyKeepsOpen(h) then InStatus(StartRes) else InStatus(Dead)
    ensures Run(q, log, ReplyText(h) + (body + rest), ReadBody) == Run(p, BodyLog(ReplyLog(log, h), body), rest, ReadBody)
  {
    var log1 := ReplyLog(log, h);
    LengthBelow(h.block);
    ReplyFlags(q, h);
    hide Run, Push, ReplyText, ReplyLog, IsReply, OnHeadersAlmostDone, Upgrades, Lengths, LengthSaid, Persists, ReplyKeepsOpen, FlagsOf, StatusOf;
    var p1 := RunReplyHead(q, log, h, body + rest, ReadBody);
    EndsSizedReply(p1);
    PushBoth(log1);
    var q1 := p1.(nread := 0, msg := p1.msg.(upgrade := false));
    p := q1.(state := Afterwards(Response, Persists(p1.msg.major, p1.msg.minor, p1.msg.flags)));
    if body == [] {
      assert body + rest == rest;
    } else {
      p := RunBody(q1.(state := InBody(BodyIdentity)), Push(log1, Notify(HeadersComplete)), body, rest);
    }
  }

  // ---- Requests in the common form ----

  /** HTTP/1.1 without a `close` option and HTTP/1.0 without options, in one line each. */
  lemma CommonForms(l: RequestLine, ls: Block)
    requires forall i :: 0 <= i < |ls| ==> RoleOf(ls[i].name) != ConnectionRole
    ensures l.major == 1 && l.minor == 1 ==> KeepsOpen(l, ls)
    ensures l.major == 1 && l.minor == 0 ==> !KeepsOpen(l, ls)
  {
    hide RoleOf, Options;
  }

  /** One Connection line with a list of options decides by the options the parser listens to. */
  lemma ConnectionLine(l: RequestLine, ls: Block, i: nat, opts: seq<Bytes>)
    requires i < |ls| && RoleOf(ls[i].name) == ConnectionRole && opts != [] && Content(ls[i]) == Joined(opts)
    requires forall j :: 0 <= j < |opts| ==> IsOption(opts[j])
    requires forall j :: 0 <= j < |ls| && j != i ==> RoleOf(ls[j].name) != ConnectionRole
    ensures KeepsOpen(l, ls) <==> if l.major > 0 && l.minor > 0 then !Heard(opts, First, Close) else Heard(opts, First, KeepAlive)
  {
    OptionsListed(opts, First, Close);
    OptionsListed(opts, First, KeepAlive);
    OneConnection(ls, i, Close);
    OneConnection(ls, i, KeepAlive);
    hide RoleOf, Options, Heard, Joined, Content, SaysOption;
  }

  lemma OneConnection(ls: Block, i: nat, w: Word)
    requires i < |ls| && RoleOf(ls[i].name) == ConnectionRole
    requires forall j :: 0 <= j < |ls| && j != i ==> RoleOf(ls[j].name) != ConnectionRole
    ensures SaysOption(ls, w) <==> w in Options(Content(ls[i]), First)
  {
    hide RoleOf, Options, Content;
    assert OptionLine(ls[i], w) <==> w in Options(Content(ls[i]), First);
  }
}
