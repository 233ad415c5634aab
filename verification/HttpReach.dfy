/** What holds of every parser that `http_parser_init` and any input lead to. */
module HttpReach {
  import opened Bits
  import opened HttpMachine

  // ---- The assertions of the source ----

  predicate ChunkPart(b: BodyPart)
  {
    b == ChunkSizeStart || b == ChunkSize || b == ChunkParameters || b == ChunkSizeAlmostDone || b == ChunkData
    || b == ChunkDataAlmostDone || b == ChunkDataDone
  }

  /** The matchers of header names. */
  predicate FieldMatcher(h: HState)
  {
    h == General || h == C || h == CO || h == CON || h == MatchConnection || h == MatchProxyConnection
    || h == MatchContentLength || h == MatchTransferEncoding || h == MatchUpgrade
    || h == Connection || h == ContentLength || h == TransferEncoding || h == UpgradeName
  }

  /** Everything the source asserts of its state before it reads a byte; `nread` already counts that byte there. */
  predicate Asserted(p: Parser)
  {
    && (p.state == InHeader(HeaderField) ==> FieldMatcher(p.hstate))
    && (p.state == InHeader(HeaderValue) ==> p.hstate != Connection && p.hstate != TransferEncoding)
    && (p.state == InBody(BodyIdentity) ==> 0 < p.length < ULLONG_MAX)
    && (p.state.InBody? && ChunkPart(p.state.b) ==> p.msg.flags.chunked)
    && (p.state == InBody(ChunkSizeStart) ==> p.nread == 0)
    && (p.state == InBody(ChunkData) ==> 0 < p.length < ULLONG_MAX)
    && (p.state == InBody(ChunkDataAlmostDone) ==> p.length == 0)
  }

  /** This with what keeps it up: lengths fit 64 bits, and a chunk has a length below the sentinel. */
  predicate Sane(p: Parser)
  {
    && Asserted(p) && p.length <= ULLONG_MAX
    && (p.state.InBody? && ChunkPart(p.state.b) && p.state.b != ChunkSizeStart ==> p.length < ULLONG_MAX)
  }

  ghost predicate StaysSane(r: Step)
  {
    !r.Rejected? ==> Sane(r.p)
  }

  lemma SaneMessageDone(p: Parser)
    requires p.length <= ULLONG_MAX
    ensures StaysSane(OnMessageDone(p)) && StaysSane(Complete(p))
  {
    hide ShouldKeepAlive;
  }

  lemma SaneHeadersDone(p: Parser, b: Byte)
    requires p.length <= ULLONG_MAX
    ensures StaysSane(OnHeadersDone(p, b))
  {
    SaneMessageDone(p.(nread := 0));
    hide Complete, NeedsEof;
  }

  lemma SaneHeadersAlmostDone(p: Parser, b: Byte, answer: Answer)
    requires p.length <= ULLONG_MAX
    ensures StaysSane(OnHeadersAlmostDone(p, b, answer))
  {
    SaneMessageDone(p);
    forall q: Parser | q.length <= ULLONG_MAX
      ensures StaysSane(OnHeadersDone(q, b))
    {
      SaneHeadersDone(q, b);
    }
    hide OnHeadersDone, OnMessageDone, Sane;
  }

  lemma SaneFieldStart(p: Parser, b: Byte, answer: Answer)
    requires p.length <= ULLONG_MAX
    ensures StaysSane(OnFieldStart(p, b, answer))
  {
    SaneHeadersAlmostDone(p, b, answer);
    hide OnHeadersAlmostDone, Token;
  }

  lemma SaneField(p: Parser, b: Byte)
    requires Sane(p) && p.state == InHeader(HeaderField)
    ensures StaysSane(OnField(p, b))
  {
    SaneMatcher(Matcher(p.hstate, p.index), b);
    hide FieldChar, Token;
  }

  lemma SaneMatcher(m: Matcher, b: Byte)
    requires FieldMatcher(m.h)
    ensures FieldMatcher(FieldChar(m, b).h)
  {
    hide Token, Is;
  }

  /** A value neither begins nor goes on in a state the source asserts away, and its length fits 64 bits. */
  predicate SaneValue(v: ValueStep)
  {
    v.ValueStep? ==> v.m.h != Connection && v.m.h != TransferEncoding && v.length <= ULLONG_MAX
  }

  lemma SaneEntry(h: HState, f: Flags, length: nat, b: Byte)
    requires length <= ULLONG_MAX
    ensures SaneValue(ValueEntry(h, f, length, b))
  {
  }

  lemma SaneDigit(m: Matcher, f: Flags, length: nat, b: Byte)
    requires length <= ULLONG_MAX
    ensures SaneValue(LengthDigit(m, f, length, b)) || m.h == Connection || m.h == TransferEncoding
  {
  }

  lemma SaneChar(m: Matcher, f: Flags, length: nat, b: Byte)
    requires length <= ULLONG_MAX && m.h != Connection && m.h != TransferEncoding
    ensures SaneValue(ValueChar(m, f, length, b))
  {
    SaneDigit(m, f, length, b);
    hide LengthDigit, Token, Is, Listed;
  }

  lemma SaneInValue(p: Parser, v: ValueStep, b: Byte)
    requires SaneValue(v)
    ensures StaysSane(InValue(p, v, b))
  {
  }

  lemma SaneStart(p: Parser, b: Byte)
    requires p.length <= ULLONG_MAX
    ensures StaysSane(OnValueStart(p, b)) && (p.state == InHeader(HeaderValueDiscardWs) ==> StaysSane(OnDiscardWs(p, b)))
  {
    SaneEntry(p.hstate, p.msg.flags, p.length, b);
    SaneInValue(p, ValueEntry(p.hstate, p.msg.flags, p.length, b), b);
    hide InValue, ValueEntry;
  }

  lemma SaneLws(p: Parser, b: Byte, answer: Answer)
    requires p.length <= ULLONG_MAX
    ensures StaysSane(OnValueLws(p, b, answer)) && StaysSane(OnDiscardLws(p, b, answer))
  {
    SaneFieldStart(p.(state := InHeader(HeaderFieldStart), msg := p.msg.(flags := Finished(p.hstate, p.msg.flags))), b, answer);
    SaneStart(p.(hstate := if p.hstate == ContentLengthNum then ContentLengthWs else p.hstate), b);
    hide OnFieldStart, OnValueStart, Finished;
  }

  lemma SaneOnValue(p: Parser, b: Byte)
    requires Sane(p) && p.state == InHeader(HeaderValue)
    ensures StaysSane(OnValue(p, b))
  {
    SaneChar(Matcher(p.hstate, p.index), p.msg.flags, p.length, b);
    SaneInValue(p, ValueChar(Matcher(p.hstate, p.index), p.msg.flags, p.length, b), b);
    hide InValue, ValueChar, IsHeaderChar;
  }

  lemma SaneHeaderPart(p: Parser, h: HeaderPart, b: Byte, answer: Answer)
    requires Sane(p) && p.state == InHeader(h)
    ensures StaysSane(OnHeaderPart(p, h, b, answer))
  {
    match h {
      case HeaderFieldStart => SaneFieldStart(p, b, answer);
      case HeadersAlmostDone => SaneHeadersAlmostDone(p, b, answer);
      case HeaderField => SaneField(p, b);
      case HeaderValue => SaneOnValue(p, b);
      case _ =>
        SaneStart(p, b);
        SaneLws(p, b, answer);
    }
    hide OnFieldStart, OnHeadersAlmostDone, OnField, OnValue, OnValueLws, OnDiscardLws, OnDiscardWs, OnValueStart;
  }

  lemma SaneBodyPart(p: Parser, part: BodyPart, b: Byte)
    requires p.length <= ULLONG_MAX && p.state == InBody(part)
    requires Sane(p.(nread := 0))
    ensures StaysSane(OnBodyPart(p, part, b))
  {
    SaneHeadersDone(p, b);
    SaneMessageDone(p);
    SaneMessageDone(p.(length := 0, state := InBody(MessageDone)));
    hide OnHeadersDone, OnMessageDone;
  }

  lemma SaneUrl(p: Parser, u: UrlPart, b: Byte)
    requires p.length <= ULLONG_MAX
    ensures StaysSane(OnUrl(p, u, b))
  {
    hide ParseUrlChar;
  }

  lemma SaneStatusPart(p: Parser, s: StatusPart, b: Byte)
    requires p.length <= ULLONG_MAX && p.state == InStatus(s)
    ensures StaysSane(OnStatusPart(p, s, b))
  {
    hide FirstMethod;
  }

  lemma SaneRequestPart(p: Parser, r: RequestPart, b: Byte)
    requires p.length <= ULLONG_MAX && p.state == InRequest(r)
    ensures StaysSane(OnRequestPart(p, r, b))
  {
    hide FirstMethod, OtherMethod, FirstUrlChar, Is;
  }

  lemma SaneDispatch(p: Parser, b: Byte, answer: Answer)
    requires Sane(p.(nread := 0))
    ensures StaysSane(Dispatch(p, b, answer))
  {
    hide OnStatusPart, OnRequestPart, OnUrl, OnHeaderPart, OnBodyPart, StaysSane;
    match p.state {
      case InStatus(s) => SaneStatusPart(p, s, b);
      case InRequest(r) => SaneRequestPart(p, r, b);
      case InUrl(u) => SaneUrl(p, u, b);
      case InHeader(h) => SaneHeaderPart(p, h, b, answer);
      case InBody(part) => SaneBodyPart(p, part, b);
    }
  }

  lemma SaneByte(p: Parser, b: Byte, answer: Answer)
    requires Sane(p)
    ensures StaysSane(OnByte(p, b, answer))
  {
    hide Dispatch;
    SaneDispatch(p, b, answer);
    SaneDispatch(p.(nread := p.nread + 1), b, answer);
  }

  /** No assertion of the source can fail: they hold in every state that any input leads to. */
  lemma NoAssertionFails(kind: Kind, s: Bytes, answer: Answer)
    ensures var o := Run(Init(kind), [], s, answer); !o.Failed? ==> Asserted(o.p)
  {
    RunSane(Init(kind), [], s, answer);
  }

  lemma {:induction false} RunSane(p: Parser, log: seq<Event>, s: Bytes, answer: Answer)
    requires Sane(p)
    ensures var o := Run(p, log, s, answer); !o.Failed? ==> Sane(o.p)
    decreases |s|
  {
    hide OnByte, PushAll, Sane;
    if s != [] {
      SaneByte(p, s[0], answer);
      var r := OnByte(p, s[0], answer);
      if r.Next? {
        RunSane(r.p, PushAll(log, r.events), s[1..], answer);
      }
    }
  }

  // ---- Messages begun and completed ----

  /** How many more messages were begun than completed. */
  function Unfinished(log: seq<Event>): int
  {
    if log == [] then 0 else Unfinished(log[..|log| - 1]) + Begins(log[|log| - 1])
  }

  function Begins(e: Event): int
  {
    if e == Notify(MessageBegin) then 1 else if e == Notify(MessageComplete) then -1 else 0
  }

  /** Between messages. */
  predicate Idle(s: State)
  {
    s == InStatus(Dead) || s == InStatus(StartReqOrRes) || s == InStatus(StartRes) || s == InRequest(StartReq)
  }

  /** One message is under way exactly in the states that are not between messages. */
  predicate Accounted(s: State, log: seq<Event>)
  {
    Unfinished(log) == if Idle(s) then 0 else 1
  }

  lemma UnfinishedPush(log: seq<Event>, e: Event)
    ensures Unfinished(Push(log, e)) == Unfinished(log) + Begins(e)
  {
    if log != [] && e.Data? && log[|log| - 1].Data? && log[|log| - 1].element == e.element {
      assert Push(log, e)[..|log| - 1] == log[..|log| - 1];
    } else {
      assert Push(log, e)[..|log|] == log;
    }
  }

  /** The same in a few callbacks, from the first on. */
  function Sum(es: seq<Event>): int
  {
    if es == [] then 0 else Begins(es[0]) + Sum(es[1..])
  }

  lemma {:induction false} UnfinishedAll(log: seq<Event>, es: seq<Event>)
    ensures Unfinished(PushAll(log, es)) == Unfinished(log) + Sum(es)
    decreases |es|
  {
    hide Push, Unfinished;
    if es != [] {
      UnfinishedPush(log, es[0]);
      UnfinishedAll(Push(log, es[0]), es[1..]);
    }
  }

  /** A byte begins or completes a message exactly when it leaves or reaches a state between messages. */
  ghost predicate Counts(s: State, r: Step)
  {
    !r.Rejected? ==> Sum(r.events) == (if Idle(s) then 0 else -1) + if Idle(r.p.state) then 0 else 1
  }

  lemma SumOne(e: Event)
    ensures Sum([e]) == Begins(e)
  {
    assert [e][1..] == [];
  }

  lemma SumBefore(e: Event, r: Step)
    ensures !r.Rejected? ==> Sum(Before([e], r).events) == Begins(e) + Sum(r.events)
  {
    assert !r.Rejected? ==> ([e] + r.events)[1..] == r.events;
  }

  lemma CountsDone(p: Parser, s: State)
    requires !Idle(s)
    ensures Counts(s, OnMessageDone(p)) && Counts(s, Complete(p))
  {
    SumOne(Notify(MessageComplete));
    hide ShouldKeepAlive, Sum;
  }

  lemma CountsHeadersDone(p: Parser, b: Byte, s: State)
    requires !Idle(s)
    ensures Counts(s, OnHeadersDone(p, b))
  {
    CountsDone(p.(nread := 0), s);
    hide Complete, NeedsEof;
  }

  lemma CountsHeadersAlmostDone(p: Parser, b: Byte, answer: Answer, s: State)
    requires !Idle(s)
    ensures Counts(s, OnHeadersAlmostDone(p, b, answer))
  {
    CountsDone(p, s);
    SumBefore(Notify(ChunkComplete), OnMessageDone(p));
    forall q: Parser
      ensures Counts(s, Before([Notify(HeadersComplete)], OnHeadersDone(q, b)))
    {
      CountsHeadersDone(q, b, s);
      SumBefore(Notify(HeadersComplete), OnHeadersDone(q, b));
    }
    hide OnHeadersDone, OnMessageDone, Before, Sum;
  }

  lemma CountsFieldStart(p: Parser, b: Byte, answer: Answer, s: State)
    requires !Idle(s)
    ensures Counts(s, OnFieldStart(p, b, answer))
    ensures Counts(s, Before([Data(Value, [])], OnFieldStart(p, b, answer)))
  {
    CountsHeadersAlmostDone(p, b, answer, s);
    SumBefore(Data(Value, []), OnFieldStart(p, b, answer));
    SumOne(Data(Field, [b]));
    hide OnHeadersAlmostDone, Token, Before;
  }

  lemma CountsHeaderPart(p: Parser, h: HeaderPart, b: Byte, answer: Answer)
    requires p.state == InHeader(h)
    ensures Counts(p.state, OnHeaderPart(p, h, b, answer))
  {
    CountsFieldStart(p, b, answer, p.state);
    CountsFieldStart(p.(state := InHeader(HeaderFieldStart), msg := p.msg.(flags := Finished(p.hstate, p.msg.flags))), b, answer, p.state);
    CountsHeadersAlmostDone(p, b, answer, p.state);
    SumOne(Data(Field, [b]));
    SumOne(Data(Value, [b]));
    hide OnHeadersAlmostDone, OnFieldStart, Finished, ValueEntry, ValueChar, FieldChar, Token, IsHeaderChar, Before, Sum;
  }

  lemma CountsBodyPart(p: Parser, part: BodyPart, b: Byte)
    requires p.state == InBody(part)
    ensures Counts(p.state, OnBodyPart(p, part, b))
  {
    var q := p.(length := 0, state := InBody(MessageDone));
    CountsHeadersDone(p, b, p.state);
    CountsDone(p, p.state);
    CountsDone(q, p.state);
    SumBefore(Data(Body, [b]), OnMessageDone(q));
    SumOne(Data(Body, [b]));
    SumOne(Notify(ChunkHeader(p.length)));
    SumOne(Notify(ChunkHeader(0)));
    SumOne(Notify(ChunkComplete));
    hide OnHeadersDone, OnMessageDone, Unhex, Before, Sum;
  }

  lemma CountsStart(p: Parser, r: RequestPart, b: Byte)
    requires p.state == InRequest(r)
    ensures Counts(p.state, OnRequestPart(p, r, b))
  {
    SumOne(Notify(MessageBegin));
    SumOne(Data(Url, [b]));
    hide FirstMethod, OtherMethod, FirstUrlChar, Is, Sum;
    assert Sum([]) == 0 by {
      SumNone();
    }
  }

  lemma SumNone()
    ensures Sum([]) == 0
  {
  }

  lemma CountsStatusPart(p: Parser, s: StatusPart, b: Byte)
    requires p.state == InStatus(s)
    ensures Counts(p.state, OnStatusPart(p, s, b))
  {
    SumNone();
    SumOne(Notify(MessageBegin));
    SumOne(Data(Status, [b]));
    SumOne(Data(Status, []));
    hide FirstMethod, Sum;
  }

  lemma CountsUrl(p: Parser, u: UrlPart, b: Byte)
    requires p.state == InUrl(u)
    ensures Counts(p.state, OnUrl(p, u, b))
  {
    SumNone();
    SumOne(Data(Url, [b]));
    hide ParseUrlChar, Sum;
  }

  lemma CountsDispatch(p: Parser, b: Byte, answer: Answer)
    ensures Counts(p.state, Dispatch(p, b, answer))
  {
    hide OnStatusPart, OnRequestPart, OnUrl, OnHeaderPart, OnBodyPart, Counts;
    match p.state {
      case InStatus(s) => CountsStatusPart(p, s, b);
      case InRequest(r) => CountsStart(p, r, b);
      case InUrl(u) => CountsUrl(p, u, b);
      case InHeader(h) => CountsHeaderPart(p, h, b, answer);
      case InBody(part) => CountsBodyPart(p, part, b);
    }
  }

  lemma CountsByte(p: Parser, b: Byte, answer: Answer)
    ensures Counts(p.state, OnByte(p, b, answer))
  {
    hide Dispatch;
    CountsDispatch(p, b, answer);
    CountsDispatch(p.(nread := p.nread + 1), b, answer);
  }

  lemma {:induction false} RunAccounted(p: Parser, log: seq<Event>, s: Bytes, answer: Answer)
    requires Accounted(p.state, log)
    ensures var o := Run(p, log, s, answer); !o.Failed? ==> Accounted(o.p.state, o.log)
    decreases |s|
  {
    hide OnByte, PushAll, Unfinished, Sum;
    if s != [] {
      CountsByte(p, s[0], answer);
      var r := OnByte(p, s[0], answer);
      if !r.Rejected? {
        UnfinishedAll(log, r.events);
      }
      if r.Next? {
        RunAccounted(r.p, PushAll(log, r.events), s[1..], answer);
      }
    }
  }

  // ---- The end of the connection ----

  /** The states in which the end of the connection is no error, and what it notifies. */
  predicate AcceptsEof(s: State)
  {
    Idle(s) || s == InBody(BodyIdentityEof)
  }

  function EofEvents(s: State): seq<Event>
  {
    if s == InBody(BodyIdentityEof) then [Notify(MessageComplete)] else []
  }

  lemma EofCounts(s: State, log: seq<Event>)
    requires Accounted(s, log)
    ensures AcceptsEof(s) <==> Unfinished(PushAll(log, EofEvents(s))) == 0
  {
    UnfinishedAll(log, EofEvents(s));
    SumNone();
    SumOne(Notify(MessageComplete));
    hide Unfinished, Sum, PushAll;
  }

  /**
   * After any input, the end of the connection is accepted if and only if every message that was begun
   * is complete, or is completed by it.
   */
  lemma EofAccepts(kind: Kind, s: Bytes, answer: Answer)
    ensures var o := Run(Init(kind), [], s, answer);
            !o.Failed? ==> (AcceptsEof(o.p.state) <==> Unfinished(PushAll(o.log, EofEvents(o.p.state))) == 0)
  {
    RunAccounted(Init(kind), [], s, answer);
    hide Run, Unfinished;
    var o := Run(Init(kind), [], s, answer);
    if !o.Failed? {
      EofCounts(o.p.state, o.log);
    }
  }
}
