/**
 * One call of `http_parser_execute` as a machine: like `HttpMachine`, but names and values are
 * counted all at once, in 32 bits, when the call or the name or value ends.
 */
module HttpCalls {
  import opened Bits
  import opened HttpMachine
  import opened HttpReach

  const UINT32: nat := 0x1_0000_0000

  /** Whether the call is in the middle of a name or value, and how far the inner loop over a value is. */
  datatype Scan = Scan(mid: bool, run: nat)

  const FRESH := Scan(false, 0)

  predicate Scanning(s: State)
  {
    s == InHeader(HeaderField) || s == InHeader(HeaderValue)
  }

  /** The name or value goes on. */
  predicate GoesOn(s: State, b: Byte)
  {
    if s == InHeader(HeaderField) then Token(b) != 0 else b != CR && b != LF && IsHeaderChar(b)
  }

  /** The inner loop over a value is at its limit: the next byte is passed over. */
  predicate PassesOver(q: Parser, c: Scan)
  {
    q.state == InHeader(HeaderValue) && q.hstate == General && c.run == MAX_HEADER_SIZE
  }

  /** The 32-bit count at the end of a scan; none if the header is too long. */
  function Settle(q: Parser): Step
  {
    var n := q.nread % UINT32;
    if n > MAX_HEADER_SIZE then Rejected else Next(q.(nread := n), [])
  }

  /** One byte of a name or value. While it goes on, `nread` is the exact count. */
  function ScanStep(q: Parser, c: Scan, b: Byte, answer: Answer): Step
  {
    var q1 := q.(nread := q.nread + 1);
    if !c.mid && q1.nread > MAX_HEADER_SIZE then Rejected
    else if PassesOver(q, c) then Next(q1, [Data(Value, [b])])
    else if GoesOn(q.state, b) then Dispatch(q1, b, answer)
    else if Settle(q1).Rejected? then Rejected
    else Dispatch(Settle(q1).p, b, answer)
  }

  function ScanAfter(q: Parser, c: Scan, b: Byte): Scan
  {
    if PassesOver(q, c) then Scan(true, 0)
    else if GoesOn(q.state, b) then Scan(true, if q.state == InHeader(HeaderValue) && q.hstate == General then c.run + 1 else 0)
    else FRESH
  }

  /** A call on the rest `s` of its input. */
  function RunCall(q: Parser, c: Scan, log: seq<Event>, s: Bytes, answer: Answer): Outcome
    decreases |s|
  {
    if s == [] then
      if !c.mid then Going(q, log) else if Settle(q).Rejected? then Failed else Going(Settle(q).p, log)
    else
      var scans := Scanning(q.state);
      match if scans then ScanStep(q, c, s[0], answer) else OnByte(q, s[0], answer)
      case Rejected => Failed
      case Upgraded(q', es) => Switched(q', PushAll(log, es), s[1..])
      case Next(q', es) => RunCall(q', if scans then ScanAfter(q, c, s[0]) else FRESH, PushAll(log, es), s[1..], answer)
  }

  // ---- Where calls and the byte-wise machine agree ----

  /** A name or value that is read on stays what it is. */
  lemma Stays(q: Parser, b: Byte, answer: Answer)
    requires Scanning(q.state) && GoesOn(q.state, b)
    ensures var r := Dispatch(q, b, answer); r.Rejected? || (r.Next? && r.p.state == q.state && r.p.nread == q.nread)
  {
    hide FieldChar, ValueChar, Token, IsHeaderChar;
  }

  // ---- The count of header bytes ----

  /** The count of header bytes goes back to zero or stays. */
  ghost predicate CountKept(p: Parser, r: Step)
  {
    !r.Rejected? ==> r.p.nread <= p.nread
  }

  lemma HeadersDoneCount(p: Parser, b: Byte, answer: Answer)
    ensures CountKept(p, OnHeadersDone(p, b)) && CountKept(p, OnHeadersAlmostDone(p, b, answer)) && CountKept(p, OnMessageDone(p))
  {
    hide NewMessage, NeedsEof;
  }

  lemma FieldStartCount(p: Parser, b: Byte, answer: Answer)
    ensures CountKept(p, OnFieldStart(p, b, answer))
  {
    HeadersDoneCount(p, b, answer);
    hide OnHeadersAlmostDone, Token;
  }

  lemma HeaderPartCount(p: Parser, h: HeaderPart, b: Byte, answer: Answer)
    ensures CountKept(p, OnHeaderPart(p, h, b, answer))
  {
    var q := p.(state := InHeader(HeaderFieldStart), msg := p.msg.(flags := Finished(p.hstate, p.msg.flags)));
    FieldStartCount(p, b, answer);
    FieldStartCount(q, b, answer);
    HeadersDoneCount(p, b, answer);
    hide OnHeadersAlmostDone, OnFieldStart, Finished, ValueEntry, ValueChar, FieldChar, Token, IsHeaderChar;
  }

  lemma BodyPartCount(p: Parser, part: BodyPart, b: Byte)
    ensures CountKept(p, OnBodyPart(p, part, b))
  {
    HeadersDoneCount(p, b, ReadBody);
    HeadersDoneCount(p.(length := 0, state := InBody(MessageDone)), b, ReadBody);
    hide OnHeadersDone, OnMessageDone, Unhex;
  }

  lemma DispatchCount(p: Parser, b: Byte, answer: Answer)
    ensures CountKept(p, Dispatch(p, b, answer))
  {
    match p.state {
      case InHeader(h) => HeaderPartCount(p, h, b, answer);
      case InBody(part) => BodyPartCount(p, part, b);
      case _ => hide FirstMethod, OtherMethod, Reset, FirstUrlChar, ParseUrlChar, Is;
    }
    hide OnHeaderPart, OnBodyPart;
  }

  lemma ByteCount(q: Parser, b: Byte, answer: Answer)
    requires q.nread <= MAX_HEADER_SIZE
    ensures var r := OnByte(q, b, answer); !r.Rejected? ==> r.p.nread <= MAX_HEADER_SIZE
  {
    hide Dispatch;
    DispatchCount(q, b, answer);
    DispatchCount(q.(nread := q.nread + 1), b, answer);
  }

  // ---- Split independence of calls ----

  /** A call on up to 2^32 bytes less the header limit counts as the byte-wise machine does. */
  lemma {:induction false} CallIsRun(q: Parser, c: Scan, log: seq<Event>, s: Bytes, answer: Answer)
    requires |s| + MAX_HEADER_SIZE <= UINT32
    requires if c.mid then Scanning(q.state) && q.nread + |s| < UINT32 && c.run <= q.nread else c == FRESH && q.nread <= MAX_HEADER_SIZE
    ensures RunCall(q, c, log, s, answer) == if c.mid && q.nread > MAX_HEADER_SIZE then Failed else Run(q, log, s, answer)
    decreases |s|
  {
    hide Dispatch, Token, IsHeaderChar, PushAll;
    if s != [] {
      var b, scans := s[0], Scanning(q.state);
      var q1 := q.(nread := q.nread + 1);
      var r := if scans then ScanStep(q, c, b, answer) else OnByte(q, b, answer);
      var c1 := if scans then ScanAfter(q, c, b) else FRESH;
      ByteCount(q1.(nread := if q.nread <= MAX_HEADER_SIZE then q.nread else 0), b, answer);
      if scans && GoesOn(q.state, b) {
        Stays(q1, b, answer);
      }
      DispatchCount(q1, b, answer);
      if r.Next? {
        CallIsRun(r.p, c1, PushAll(log, r.events), s[1..], answer);
      }
    }
  }

  lemma {:induction false} RunCount(q: Parser, log: seq<Event>, s: Bytes, answer: Answer)
    requires q.nread <= MAX_HEADER_SIZE
    ensures var o := Run(q, log, s, answer); !o.Failed? ==> o.p.nread <= MAX_HEADER_SIZE
    decreases |s|
  {
    hide OnByte, PushAll;
    if s != [] {
      ByteCount(q, s[0], answer);
      var r := OnByte(q, s[0], answer);
      if r.Next? {
        RunCount(r.p, PushAll(log, r.events), s[1..], answer);
      }
    }
  }

  /** Another call after the first. */
  function Again(o: Outcome, s: Bytes, answer: Answer): Outcome
  {
    if o.Going? then RunCall(o.p, FRESH, o.log, s, answer) else Unread(o, s)
  }

  function Calls(o: Outcome, pieces: seq<Bytes>, answer: Answer): Outcome
    decreases |pieces|
  {
    if pieces == [] then o else Calls(Again(o, pieces[0], answer), pieces[1..], answer)
  }

  /** Split independence: calls on any pieces below the bound amount to the byte-wise machine on all of it. */
  lemma {:induction false} CallsAreRun(q: Parser, log: seq<Event>, pieces: seq<Bytes>, answer: Answer)
    requires q.nread <= MAX_HEADER_SIZE && forall s <- pieces :: |s| + MAX_HEADER_SIZE <= UINT32
    ensures Calls(Going(q, log), pieces, answer) == Run(q, log, Concat(pieces), answer)
    decreases |pieces|
  {
    hide Run, RunCall;
    if pieces == [] {
      RunNone(q, log, answer);
    } else {
      var s := pieces[0];
      CallIsRun(q, FRESH, log, s, answer);
      RunSplit(q, log, s, Concat(pieces[1..]), answer);
      RunCount(q, log, s, answer);
      var o := Run(q, log, s, answer);
      if o.Going? {
        CallsAreRun(o.p, o.log, pieces[1..], answer);
      } else {
        CallsDown(o, pieces[1..], answer);
      }
    }
  }

  lemma {:induction false} CallsDown(o: Outcome, pieces: seq<Bytes>, answer: Answer)
    requires !o.Going?
    ensures Calls(o, pieces, answer) == Unread(o, Concat(pieces))
    decreases |pieces|
  {
    if pieces != [] {
      CallsDown(Unread(o, pieces[0]), pieces[1..], answer);
      UnreadTwice(o, pieces[0], Concat(pieces[1..]));
    } else {
      assert o.Switched? ==> o.rest + [] == o.rest;
    }
  }

  /** Calls of any length begin and complete messages in turn. */
  lemma {:induction false} CallAccounted(q: Parser, c: Scan, log: seq<Event>, s: Bytes, answer: Answer)
    requires Accounted(q.state, log)
    ensures var o := RunCall(q, c, log, s, answer); !o.Failed? ==> Accounted(o.p.state, o.log)
    decreases |s|
  {
    hide OnByte, Dispatch, PushAll, Unfinished, Sum, Token, IsHeaderChar, Idle;
    if s != [] {
      var b, q1 := s[0], q.(nread := q.nread + 1);
      CountsByte(q, b, answer);
      CountsDispatch(q1, b, answer);
      CountsDispatch(q1.(nread := q1.nread % UINT32), b, answer);
      SumOne(Data(Value, [b]));
      var scans := Scanning(q.state);
      var r := if scans then ScanStep(q, c, b, answer) else OnByte(q, b, answer);
      if !r.Rejected? {
        UnfinishedAll(log, r.events);
      }
      if r.Next? {
        CallAccounted(r.p, if scans then ScanAfter(q, c, b) else FRESH, PushAll(log, r.events), s[1..], answer);
      }
    }
  }

  // ---- Where they do not ----

  /** The rest of a call that is all name: only the last 32 bits of the count matter. */
  lemma {:induction false} NameCall(q: Parser, c: Scan, log: seq<Event>, s: Bytes, answer: Answer)
    requires q.state == InHeader(HeaderField) && (forall b <- s :: Token(b) != 0) && (c.mid || (s != [] && q.nread < MAX_HEADER_SIZE))
    ensures var n, o := (q.nread + |s|) % UINT32, RunCall(q, c, log, s, answer);
            if n > MAX_HEADER_SIZE then o == Failed else o.Going? && o.p.state == q.state && o.p.nread == n
    decreases |s|
  {
    hide Token, FieldChar, Push;
    if s != [] {
      var q1 := q.(nread := q.nread + 1);
      var m := FieldChar(Matcher(q.hstate, q.index), s[0]);
      NameByte(q1, s[0], answer);
      PushAllOne(log, Data(Field, [s[0]]));
      NameCall(q1.(hstate := m.h, index := m.index), Scan(true, 0), Push(log, Data(Field, [s[0]])), s[1..], answer);
    }
  }

  lemma NameByte(q: Parser, b: Byte, answer: Answer)
    requires q.state == InHeader(HeaderField) && Token(b) != 0
    ensures var m := FieldChar(Matcher(q.hstate, q.index), b);
            Dispatch(q, b, answer) == Next(q.(hstate := m.h, index := m.index), [Data(Field, [b])])
  {
    hide Token, FieldChar;
  }

  function LongName(n: nat): Bytes
  {
    seq(n, _ => 65)
  }

  /** A request line of HTTP 0.9 and the first letter of a name. */
  const SHORT_LINE: Bytes := [71, 69, 84, 32, 47, LF, 65]

  /** The name goes on until the header is one byte short of the limit. */
  function NearlyFull(): Bytes
  {
    SHORT_LINE + LongName(MAX_HEADER_SIZE - 8)
  }

  lemma FirstLetter(answer: Answer)
    ensures OnByte(Init(Request), 71, answer).Next?
    ensures var p := OnByte(Init(Request), 71, answer).p;
            p.state == InRequest(ReqMethod) && p.index == 1 && p.nread == 1 && p.msg.verb == "GET"
  {
  }

  lemma NextLetter(p: Parser, b: Byte, answer: Answer)
    requires p.state == InRequest(ReqMethod) && b != 0 && Is(p.msg.verb, p.index, b) && p.nread < MAX_HEADER_SIZE
    ensures OnByte(p, b, answer) == Next(p.(nread := p.nread + 1, index := p.index + 1), [])
  {
  }

  lemma EndOfMethod(p: Parser, answer: Answer)
    requires p.state == InRequest(ReqMethod) && p.index == |p.msg.verb| && p.nread < MAX_HEADER_SIZE
    ensures OnByte(p, SP, answer) == Next(p.(nread := p.nread + 1, index := p.index + 1, state := InRequest(ReqSpacesBeforeUrl)), [])
  {
  }

  lemma UrlSlash(p: Parser, answer: Answer)
    requires p.state == InRequest(ReqSpacesBeforeUrl) && p.msg.verb == "GET" && p.nread < MAX_HEADER_SIZE
    ensures OnByte(p, 47, answer) == Next(p.(nread := p.nread + 1, state := InUrl(ReqPath)), [Data(Url, [47])])
  {
  }

  lemma EndOfUrl(p: Parser, answer: Answer)
    requires p.state == InUrl(ReqPath) && p.nread < MAX_HEADER_SIZE
    ensures var r := OnByte(p, LF, answer); r.Next? && r.p.state == InHeader(HeaderFieldStart) && r.p.nread == p.nread + 1
  {
  }

  lemma FirstOfName(p: Parser, answer: Answer)
    requires p.state == InHeader(HeaderFieldStart) && p.nread < MAX_HEADER_SIZE
    ensures var r := OnByte(p, 65, answer); r.Next? && r.p.state == InHeader(HeaderField) && r.p.nread == p.nread + 1
  {
  }

  /** Byte `k` of an input. */
  lemma Along(o: Outcome, s: Bytes, k: nat, answer: Answer) returns (o1: Outcome)
    requires o.Going? && k < |s| && OnByte(o.p, s[k], answer).Next?
    ensures o1.Going? && o1.p == OnByte(o.p, s[k], answer).p && Run(o.p, o.log, s[k..], answer) == Run(o1.p, o1.log, s[k + 1..], answer)
  {
    hide OnByte;
    o1 := Stepped(OnByte(o.p, s[k], answer), o.log);
    assert s[k..][1..] == s[k + 1..];
  }

  lemma RequestLine(answer: Answer)
    ensures var o := Run(Init(Request), [], SHORT_LINE, answer);
            o.Going? && o.p.state == InHeader(HeaderField) && o.p.nread == 7
  {
    hide Run, OnByte, Init;
    assert SHORT_LINE[0..] == SHORT_LINE && SHORT_LINE[7..] == [];
    FirstLetter(answer);
    var o := Along(Going(Init(Request), []), SHORT_LINE, 0, answer);
    NextLetter(o.p, 69, answer);
    o := Along(o, SHORT_LINE, 1, answer);
    NextLetter(o.p, 84, answer);
    o := Along(o, SHORT_LINE, 2, answer);
    EndOfMethod(o.p, answer);
    o := Along(o, SHORT_LINE, 3, answer);
    UrlSlash(o.p, answer);
    o := Along(o, SHORT_LINE, 4, answer);
    EndOfUrl(o.p, answer);
    o := Along(o, SHORT_LINE, 5, answer);
    FirstOfName(o.p, answer);
    o := Along(o, SHORT_LINE, 6, answer);
    RunNone(o.p, o.log, answer);
  }

  lemma LeadsToFull(answer: Answer)
    ensures var o := Run(Init(Request), [], NearlyFull(), answer);
            o.Going? && o.p.state == InHeader(HeaderField) && o.p.nread == MAX_HEADER_SIZE - 1
  {
    hide Run, RunCall, Init;
    var name := LongName(MAX_HEADER_SIZE - 8);
    RequestLine(answer);
    RunSplit(Init(Request), [], SHORT_LINE, name, answer);
    var o := Run(Init(Request), [], SHORT_LINE, answer);
    NameRun(o.p, o.log, name, answer);
  }

  lemma NameRun(q: Parser, log: seq<Event>, s: Bytes, answer: Answer)
    requires q.state == InHeader(HeaderField) && (forall b <- s :: Token(b) != 0) && s != [] && q.nread + |s| <= MAX_HEADER_SIZE
    ensures var o := Run(q, log, s, answer); o.Going? && o.p.state == q.state && o.p.nread == q.nread + |s|
  {
    hide Run, RunCall, Token;
    CallIsRun(q, FRESH, log, s, answer);
    NameCall(q, FRESH, log, s, answer);
  }

  /**
   * Where that input leads, one call counts a name until the 32 bits wrap to zero and accepts it; cut after
   * its first byte, which fills the header, it is refused.
   */
  lemma Wraps(answer: Answer)
    ensures var n, o := UINT32 - MAX_HEADER_SIZE, Run(Init(Request), [], NearlyFull(), answer);
            && o.Going?
            && Again(o, LongName(1) + LongName(n), answer).Going?
            && Again(Again(o, LongName(1), answer), LongName(n), answer) == Failed
  {
    var n, o := UINT32 - MAX_HEADER_SIZE, Run(Init(Request), [], NearlyFull(), answer);
    hide RunCall, Run;
    LeadsToFull(answer);
    NameCall(o.p, FRESH, o.log, LongName(1) + LongName(n), answer);
    NameCall(o.p, FRESH, o.log, LongName(1), answer);
    var o1 := RunCall(o.p, FRESH, o.log, LongName(1), answer);
    TooMany(o1.p, o1.log, LongName(n), answer);
  }

  lemma TooMany(q: Parser, log: seq<Event>, s: Bytes, answer: Answer)
    requires ParsingHeader(q.state) && s != [] && q.nread + 1 > MAX_HEADER_SIZE
    ensures RunCall(q, FRESH, log, s, answer) == Failed
  {
  }

  /** After any input, cutting a call of up to `limit` bytes in two makes no difference. */
  ghost predicate CutsFreely(limit: nat, answer: Answer)
  {
    forall kind: Kind, prefix: Bytes, a: Bytes, b: Bytes |
      |a| + |b| <= limit && Run(Init(kind), [], prefix, answer).Going? ::
      var o := Run(Init(kind), [], prefix, answer);
      Again(o, a + b, answer) == Again(Again(o, a, answer), b, answer)
  }

  /** This is so if and only if the 32-bit count cannot wrap in one call. */
  lemma SplitExactly(limit: nat, answer: Answer)
    ensures CutsFreely(limit, answer) <==> limit + MAX_HEADER_SIZE <= UINT32
  {
    hide RunCall, Run;
    if limit + MAX_HEADER_SIZE <= UINT32 {
      forall kind: Kind, prefix: Bytes, a: Bytes, b: Bytes |
        |a| + |b| <= limit && Run(Init(kind), [], prefix, answer).Going?
        ensures var o := Run(Init(kind), [], prefix, answer);
                Again(o, a + b, answer) == Again(Again(o, a, answer), b, answer)
      {
        var o := Run(Init(kind), [], prefix, answer);
        RunCount(Init(kind), [], prefix, answer);
        SplitCall(o.p, o.log, a, b, answer);
      }
    } else {
      Wraps(answer);
      var a, b := LongName(1), LongName(UINT32 - MAX_HEADER_SIZE);
      var o := Run(Init(Request), [], NearlyFull(), answer);
      assert Again(o, a + b, answer) != Again(Again(o, a, answer), b, answer);
    }
  }

  lemma SplitCall(q: Parser, log: seq<Event>, a: Bytes, b: Bytes, answer: Answer)
    requires q.nread <= MAX_HEADER_SIZE && |a| + |b| + MAX_HEADER_SIZE <= UINT32
    ensures RunCall(q, FRESH, log, a + b, answer) == Again(RunCall(q, FRESH, log, a, answer), b, answer)
  {
    hide RunCall, Run;
    CallIsRun(q, FRESH, log, a + b, answer);
    CallIsRun(q, FRESH, log, a, answer);
    RunSplit(q, log, a, b, answer);
    RunCount(q, log, a, answer);
    var o := Run(q, log, a, answer);
    if o.Going? {
      CallIsRun(o.p, FRESH, o.log, b, answer);
    }
  }
}
