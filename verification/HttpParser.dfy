/** `http_parser_execute`: marks, bulk scans and bulk counting, against the byte-wise machine. */
module HttpParsers {
  import opened Bits
  import opened HttpMachine
  import opened HttpReach
  import opened HttpCalls

  // ---- What the callbacks of one byte look like ----

  /** The element a state is in the middle of, as far as a new call would go on with it. */
  datatype Open = Shut | Open(element: Element)

  function OpenIn(s: State): Open
  {
    match s
    case InUrl(_) => Open(Url)
    case InStatus(part) => if part == ResStatus then Open(Status) else Shut
    case InHeader(part) => if part == HeaderField then Open(Field) else if part == HeaderValue then Open(Value) else Shut
    case _ => Shut
  }

  predicate Lump(e: Event)
  {
    e.Data? && e.bytes != []
  }

  /** At most the last callback has data, the byte itself, exactly if the element goes on; none does into another protocol. */
  ghost predicate Shaped(r: Step, b: Byte)
  {
    !r.Rejected? ==> ShapedAs(r.events, OpenIn(r.p.state), b) && (r.Upgraded? ==> OpenIn(r.p.state) == Shut)
  }

  ghost predicate ShapedAs(es: seq<Event>, o: Open, b: Byte)
  {
    && (forall i :: 0 <= i < |es| - 1 ==> !Lump(es[i]))
    && (if o.Open? then es != [] && es[|es| - 1] == Data(o.element, [b]) else es != [] ==> !Lump(es[|es| - 1]))
  }

  lemma ShapedBefore(e: Event, r: Step, b: Byte)
    requires !Lump(e) && Shaped(r, b)
    ensures Shaped(Before([e], r), b)
  {
  }

  lemma NewMessageShut(m: Message, length: nat)
    ensures OpenIn(NewMessage(m, length)) == Shut
  {
  }

  lemma CompleteShaped(p: Parser, b: Byte)
    ensures Shaped(Complete(p), b) && Shaped(OnMessageDone(p), b)
  {
    NewMessageShut(p.msg, p.length);
    hide NewMessage, OpenIn;
  }

  lemma HeadersDoneShaped(p: Parser, b: Byte)
    ensures Shaped(OnHeadersDone(p, b), b)
  {
    CompleteShaped(p.(nread := 0), b);
    hide Complete, NeedsEof;
  }

  lemma HeadersAlmostDoneShaped(p: Parser, b: Byte, answer: Answer)
    ensures Shaped(OnHeadersAlmostDone(p, b, answer), b)
  {
    CompleteShaped(p, b);
    ShapedBefore(Notify(ChunkComplete), OnMessageDone(p), b);
    forall q: Parser
      ensures Shaped(Before([Notify(HeadersComplete)], OnHeadersDone(q, b)), b)
    {
      HeadersDoneShaped(q, b);
      ShapedBefore(Notify(HeadersComplete), OnHeadersDone(q, b), b);
    }
    hide OnHeadersDone, OnMessageDone, Before;
  }

  lemma FieldStartShaped(p: Parser, b: Byte, answer: Answer)
    ensures Shaped(OnFieldStart(p, b, answer), b)
  {
    HeadersAlmostDoneShaped(p, b, answer);
    hide OnHeadersAlmostDone, Token;
  }

  lemma InValueShaped(p: Parser, v: ValueStep, b: Byte)
    ensures Shaped(InValue(p, v, b), b)
  {
  }

  lemma LwsShaped(p: Parser, b: Byte, answer: Answer)
    ensures Shaped(OnValueLws(p, b, answer), b)
  {
    var q := p.(hstate := if p.hstate == ContentLengthNum then ContentLengthWs else p.hstate);
    FieldStartShaped(p.(state := InHeader(HeaderFieldStart), msg := p.msg.(flags := Finished(p.hstate, p.msg.flags))), b, answer);
    InValueShaped(q, ValueEntry(q.hstate, q.msg.flags, q.length, b), b);
    hide OnFieldStart, InValue, ValueEntry, Finished, Shaped;
  }

  lemma DiscardLwsShaped(p: Parser, b: Byte, answer: Answer)
    ensures Shaped(OnDiscardLws(p, b, answer), b)
  {
    var q := p.(state := InHeader(HeaderFieldStart), msg := p.msg.(flags := Finished(p.hstate, p.msg.flags)));
    FieldStartShaped(q, b, answer);
    ShapedBefore(Data(Value, []), OnFieldStart(q, b, answer), b);
    hide OnFieldStart, Finished, Before;
  }

  lemma HeaderPartShaped(p: Parser, h: HeaderPart, b: Byte, answer: Answer)
    requires p.state == InHeader(h)
    ensures Shaped(OnHeaderPart(p, h, b, answer), b)
  {
    match h {
      case HeaderFieldStart => FieldStartShaped(p, b, answer);
      case HeaderValueDiscardLws => DiscardLwsShaped(p, b, answer);
      case HeaderValueLws => LwsShaped(p, b, answer);
      case HeadersAlmostDone => HeadersAlmostDoneShaped(p, b, answer);
      case _ =>
        hide FieldChar, ValueChar, ValueEntry, Token, IsHeaderChar, OnHeadersAlmostDone, OnFieldStart, OnDiscardLws, OnValueLws;
    }
  }

  lemma StatusPartShaped(p: Parser, s: StatusPart, b: Byte)
    requires p.state == InStatus(s)
    ensures Shaped(OnStatusPart(p, s, b), b)
  {
    hide FirstMethod, Reset;
  }

  lemma RequestPartShaped(p: Parser, r: RequestPart, b: Byte)
    requires p.state == InRequest(r)
    ensures Shaped(OnRequestPart(p, r, b), b)
  {
    hide FirstMethod, OtherMethod, Reset, FirstUrlChar, Is;
  }

  lemma UrlShaped(p: Parser, u: UrlPart, b: Byte)
    ensures Shaped(OnUrl(p, u, b), b)
  {
    hide ParseUrlChar;
  }

  /** States whose bytes are handled one at a time. */
  predicate Single(s: State)
  {
    match s
    case InHeader(part) => part != HeaderField && part != HeaderValue
    case InBody(part) => part != ChunkData && part != BodyIdentity && part != BodyIdentityEof
    case _ => true
  }

  lemma BodyPartShaped(p: Parser, part: BodyPart, b: Byte)
    requires p.state == InBody(part) && Single(p.state)
    ensures Shaped(OnBodyPart(p, part, b), b)
  {
    match part {
      case HeadersDone => HeadersDoneShaped(p, b);
      case MessageDone => CompleteShaped(p, b);
      case _ => hide Unhex, OnHeadersDone, OnMessageDone, OnBodyIdentity, OnChunkData;
    }
  }

  lemma DispatchShaped(p: Parser, b: Byte, answer: Answer)
    requires Single(p.state)
    ensures Shaped(Dispatch(p, b, answer), b)
  {
    match p.state {
      case InStatus(s) => StatusPartShaped(p, s, b);
      case InRequest(r) => RequestPartShaped(p, r, b);
      case InUrl(u) => UrlShaped(p, u, b);
      case InHeader(h) => HeaderPartShaped(p, h, b, answer);
      case InBody(part) => BodyPartShaped(p, part, b);
    }
    hide OnStatusPart, OnRequestPart, OnUrl, OnHeaderPart, OnBodyPart, Shaped;
  }

  // ---- Marks and callbacks ----

  /** The callbacks with data that goes on joined together. */
  ghost function Merged(calls: seq<Event>): seq<Event>
  {
    if calls == [] then [] else Push(Merged(calls[..|calls| - 1]), calls[|calls| - 1])
  }

  lemma {:induction false} PushAllAppend(log: seq<Event>, es: seq<Event>, e: Event)
    ensures PushAll(log, es + [e]) == Push(PushAll(log, es), e)
    decreases |es|
  {
    hide Push;
    if es == [] {
      assert (es + [e])[1..] == [];
    } else {
      assert (es + [e])[1..] == es[1..] + [e];
      PushAllAppend(Push(log, es[0]), es[1..], e);
    }
  }

  lemma {:induction false} MergedAll(calls: seq<Event>, es: seq<Event>)
    ensures Merged(calls + es) == PushAll(Merged(calls), es)
    decreases |es|
  {
    hide Push;
    if es == [] {
      assert calls + es == calls;
    } else {
      var es', e := es[..|es| - 1], es[|es| - 1];
      assert (calls + es)[..|calls + es| - 1] == calls + es' && es == es' + [e];
      MergedAll(calls, es');
      PushAllAppend(Merged(calls), es', e);
    }
  }

  /** A mark: the element whose data began at a position of the input and has not been passed on. */
  datatype Mark = NoMark | At(element: Element, from: nat)

  /** The callbacks as they will be once the marked data is passed on up to position `p`. */
  ghost function Pend(log: seq<Event>, mark: Mark, data: Bytes, p: nat): seq<Event>
    requires p <= |data| && (mark.At? ==> mark.from <= p)
  {
    if mark.NoMark? then log else Push(log, Data(mark.element, data[mark.from..p]))
  }

  /** Data received in two pieces is joined. */
  lemma PushTwice(log: seq<Event>, e: Element, a: Bytes, b: Bytes)
    ensures Push(Push(log, Data(e, a)), Data(e, b)) == Push(log, Data(e, a + b))
  {
    if log != [] && log[|log| - 1].Data? && log[|log| - 1].element == e {
      var c := log[|log| - 1].bytes;
      assert c + a + b == c + (a + b);
    }
  }

  lemma PendMore(log: seq<Event>, mark: Mark, data: Bytes, p: nat, n: nat)
    requires mark.At? && mark.from <= p && p + n <= |data|
    ensures Push(Pend(log, mark, data, p), Data(mark.element, data[p..p + n])) == Pend(log, mark, data, p + n)
  {
    PushTwice(log, mark.element, data[mark.from..p], data[p..p + n]);
    assert data[mark.from..p] + data[p..p + n] == data[mark.from..p + n];
  }

  /** The state in which `e` goes on was reached by passing on data of it. */
  ghost predicate EndsWith(log: seq<Event>, e: Element)
  {
    log != [] && log[|log| - 1].Data? && log[|log| - 1].element == e
  }

  lemma PendNothing(log: seq<Event>, e: Element, data: Bytes, p: nat)
    requires EndsWith(log, e) && p <= |data|
    ensures Pend(log, At(e, p), data, p) == log
  {
    var c := log[|log| - 1].bytes;
    assert data[p..p] == [] && c + [] == c;
    assert log == log[..|log| - 1] + [log[|log| - 1]];
  }

  lemma PushEnds(log: seq<Event>, e: Element, s: Bytes)
    ensures EndsWith(Push(log, Data(e, s)), e)
  {
  }

  /** In the middle of an element its data is marked; bodies may be. */
  ghost predicate MarkFits(s: State, mark: Mark, p: nat)
  {
    match OpenIn(s)
    case Open(e) => mark.At? && mark.element == e && mark.from <= p
    case Shut => mark.At? ==> s.InBody? && mark.element == Body && mark.from <= p
  }

  datatype Way = Ahead | Error | Exit

  class HttpParser {
    const answer: Answer // the answer of `on_headers_complete`
    var state: State
    var hstate: HState
    var index: nat
    var nread: nat
    var length: nat
    var msg: Message
    var failed: bool // `http_errno` is set
    var calls: seq<Event>

    ghost function Value(): Parser
      reads this
    {
      Parser(state, hstate, index, nread, length, msg)
    }

    ghost predicate Valid()
      reads this
    {
      && nread <= MAX_HEADER_SIZE && Accounted(state, Merged(calls))
      && (OpenIn(state).Open? ==> EndsWith(Merged(calls), OpenIn(state).element))
    }

    /** `http_parser_init` */
    constructor (kind: Kind, answer: Answer)
      ensures Valid() && Value() == Init(kind) && calls == [] && !failed && this.answer == answer
    {
      this.answer, failed, calls := answer, false, [];
      var p := Init(kind);
      state, hstate, index, nread, length, msg := p.state, p.hstate, p.index, p.nread, p.length, p.msg;
    }

    method Become(p: Parser)
      modifies this`state, this`hstate, this`index, this`nread, this`length, this`msg
      ensures Value() == p
    {
      state, hstate, index, nread, length, msg := p.state, p.hstate, p.index, p.nread, p.length, p.msg;
    }

    /** Passes on the marked data up to position `p`. */
    method Flush(data: Bytes, p: nat, mark: Mark)
      requires p <= |data| && (mark.At? ==> mark.from <= p)
      modifies this`calls
      ensures Merged(calls) == Pend(old(Merged(calls)), mark, data, p)
    {
      if mark.At? {
        MergedAll(calls, [Data(mark.element, data[mark.from..p])]);
        PushAllOne(Merged(calls), Data(mark.element, data[mark.from..p]));
        calls := calls + [Data(mark.element, data[mark.from..p])];
      }
    }

    /** The callbacks of a byte: data is marked, everything else closes what is marked. */
    method Report(data: Bytes, p: nat, mark0: Mark, es: seq<Event>, o: Open) returns (mark: Mark)
      requires p < |data| && ShapedAs(es, o, data[p])
      requires mark0.At? ==> mark0.from <= p && (o.Open? ==> mark0.element == o.element)
      modifies this`calls
      ensures if o.Open? then mark.At? && mark.element == o.element && mark.from <= p else mark.NoMark?
      ensures Pend(Merged(calls), mark, data, p + 1) == PushAll(Pend(old(Merged(calls)), mark0, data, p), es)
    {
      hide Push, PushAll, Merged, Pend;
      mark := mark0;
      var rest := if o.Open? then es[..|es| - 1] else es;
      ghost var log := Pend(Merged(calls), mark0, data, p);
      if !o.Open? || rest != [] {
        Flush(data, p, mark);
        mark := NoMark;
        MergedAll(calls, rest);
        calls := calls + rest;
        PendNone(Merged(calls), data, p);
      }
      if o.Open? {
        assert es == rest + [Data(o.element, [data[p]])] && data[p..p + 1] == [data[p]];
        PushAllAppend(log, rest, Data(o.element, [data[p]]));
        PushAllNone(log);
        if mark.NoMark? {
          mark := At(o.element, p);
          PendNone(Merged(calls), data, p);
          PendFirst(Merged(calls), o.element, data, p);
        } else {
          PendMore(Merged(calls), mark, data, p, 1);
        }
      }
    }

    /** The cases that handle one byte. */
    method OneByte(data: Bytes, p: nat, mark0: Mark, ghost goal: Outcome) returns (w: Way, mark: Mark)
      requires p < |data| && Single(state) && MarkFits(state, mark0, p)
      requires goal == Again(Stepped(Dispatch(Value(), data[p], answer), Pend(Merged(calls), mark0, data, p)), data[p + 1..], answer)
      modifies this
      ensures w == Error ==> goal == Failed
      ensures w == Exit ==> goal == Switched(Value(), Merged(calls), data[p + 1..]) && OpenIn(state) == Shut
      ensures w == Ahead ==> MarkFits(state, mark, p + 1)
      ensures w == Ahead ==> goal == RunCall(Value(), FRESH, Pend(Merged(calls), mark, data, p + 1), data[p + 1..], answer)
      ensures w != Error ==> nread <= old(nread)
      ensures failed == old(failed)
    {
      var r := Dispatch(Parser(state, hstate, index, nread, length, msg), data[p], answer);
      DispatchShaped(Value(), data[p], answer);
      DispatchCount(Value(), data[p], answer);
      if mark0.At? {
        SameElement(Value(), data[p], answer, mark0, p);
      }
      hide Dispatch, RunCall, Push, PushAll, Merged, Pend, ShapedAs;
      mark := mark0;
      match r {
        case Rejected => return Error, mark;
        case Upgraded(q, es) => w := Exit;
        case Next(q, es) => w := Ahead;
      }
      mark := Report(data, p, mark, r.events, OpenIn(r.p.state));
      Become(r.p);
      if w == Exit {
        PendNow(Merged(calls), data, p + 1);
      }
    }

    /** `MARK(body)`: the first of the bytes to come is marked, unless earlier ones are. */
    method MarkBody(data: Bytes, p: nat, n: nat, mark0: Mark) returns (mark: Mark)
      requires p + n <= |data| && (mark0.At? ==> mark0.from <= p && mark0.element == Body)
      ensures mark.At? && mark.element == Body && mark.from <= p
      ensures Pend(Merged(calls), mark, data, p + n) == Push(Pend(Merged(calls), mark0, data, p), Data(Body, data[p..p + n]))
    {
      hide Push, Merged;
      mark := mark0;
      if mark.NoMark? {
        mark := At(Body, p);
      } else {
        PendMore(Merged(calls), mark, data, p, n);
      }
    }

    /** The end of a message. */
    method FinishMessage(ghost log: seq<Event>, ghost rest: Bytes, ghost goal: Outcome) returns (w: Way)
      requires state == InBody(MessageDone) && log == Merged(calls) && goal == Again(Stepped(OnMessageDone(Value()), log), rest, answer)
      modifies this`state, this`calls
      ensures w == (if msg.upgrade then Exit else Ahead) && OpenIn(state) == Shut
      ensures w == Exit ==> goal == Switched(Value(), Merged(calls), rest)
      ensures w == Ahead ==> goal == RunCall(Value(), FRESH, Merged(calls), rest, answer)
    {
      hide Push, RunCall, Merged, NeedsEof, ShouldKeepAlive;
      MergedAll(calls, [Notify(MessageComplete)]);
      state := NewMessage(msg, length);
      calls := calls + [Notify(MessageComplete)];
      return if msg.upgrade then Exit else Ahead;
    }

    /** `s_body_identity`: as much of the body as there is. */
    method IdentityCase(data: Bytes, p: nat, mark0: Mark, ghost goal: Outcome) returns (w: Way, mark: Mark, p': nat)
      requires p < |data| && state == InBody(BodyIdentity) && length > 0 && MarkFits(state, mark0, p)
      requires goal == RunCall(Value(), FRESH, Pend(Merged(calls), mark0, data, p), data[p..], answer)
      modifies this`state, this`calls, this`length
      ensures p < p' <= |data| && w != Error
      ensures w == Exit ==> goal == Switched(Value(), Merged(calls), data[p'..]) && OpenIn(state) == Shut
      ensures w == Ahead ==> MarkFits(state, mark, p')
      ensures w == Ahead ==> goal == RunCall(Value(), FRESH, Pend(Merged(calls), mark, data, p'), data[p'..], answer)
    {
      hide Push, RunCall, Merged, Pend, NewMessage;
      var toRead := if length < |data| - p then length else |data| - p;
      ghost var q, log := Value(), Pend(Merged(calls), mark0, data, p);
      p' := p + toRead;
      assert data[p..][..toRead] == data[p..p'] && data[p..][toRead..] == data[p'..];
      mark := MarkBody(data, p, toRead, mark0);
      CallIdentity(q, log, data[p..], toRead, answer);
      length := length - toRead;
      if length > 0 {
        return Ahead, mark, p';
      }
      state := InBody(MessageDone);
      Flush(data, p', mark);
      w := FinishMessage(Merged(calls), data[p'..], goal);
      mark := NoMark;
      PendNow(Merged(calls), data, p');
    }

    /** `s_chunk_data`: as much of the chunk as there is; its callback waits for the end of the chunk. */
    method ChunkCase(data: Bytes, p: nat, mark0: Mark, ghost goal: Outcome) returns (mark: Mark, p': nat)
      requires p < |data| && state == InBody(ChunkData) && length > 0 && MarkFits(state, mark0, p)
      requires goal == RunCall(Value(), FRESH, Pend(Merged(calls), mark0, data, p), data[p..], answer)
      modifies this`state, this`length
      ensures p < p' <= |data| && MarkFits(state, mark, p')
      ensures goal == RunCall(Value(), FRESH, Pend(Merged(calls), mark, data, p'), data[p'..], answer)
    {
      hide Push, RunCall, Merged, Pend;
      var toRead := if length < |data| - p then length else |data| - p;
      p' := p + toRead;
      assert data[p..][..toRead] == data[p..p'] && data[p..][toRead..] == data[p'..];
      mark := MarkBody(data, p, toRead, mark0);
      CallChunk(Value(), Pend(Merged(calls), mark0, data, p), data[p..], toRead, answer);
      length := length - toRead;
      if length == 0 {
        state := InBody(ChunkDataAlmostDone);
      }
    }

    /** `s_body_identity_eof`: everything is body. */
    method EofCase(data: Bytes, p: nat, mark0: Mark, ghost goal: Outcome) returns (mark: Mark, p': nat)
      requires p < |data| && state == InBody(BodyIdentityEof) && MarkFits(state, mark0, p)
      requires goal == RunCall(Value(), FRESH, Pend(Merged(calls), mark0, data, p), data[p..], answer)
      ensures p' == |data| && MarkFits(state, mark, p')
      ensures goal == RunCall(Value(), FRESH, Pend(Merged(calls), mark, data, p'), data[p'..], answer)
    {
      hide Push, Merged, Pend;
      p' := |data|;
      mark := MarkBody(data, p, p' - p, mark0);
      CallEof(Value(), Pend(Merged(calls), mark0, data, p), data[p..], answer);
      CallNone(Value(), Push(Pend(Merged(calls), mark0, data, p), Data(Body, data[p..])), answer);
      assert data[p..p'] == data[p..] && data[p'..] == [];
    }

    // ---- Scans ----

    /** `COUNT_HEADER_SIZE`; the count is a `uint32_t`. */
    method CountHeaderSize(v: nat) returns (ok: bool)
      modifies this`nread
      ensures nread == (old(nread) + v) % UINT32 && ok == (nread <= MAX_HEADER_SIZE)
    {
      CastFirst(nread, v);
      nread := (nread + v % UINT32) % UINT32;
      ok := nread <= MAX_HEADER_SIZE;
    }

    /** The parser as if `n` header bytes had been counted. */
    ghost function Counted(n: nat): Parser
      reads this
    {
      Value().(nread := n)
    }

    /** `s_header_field`: reads on to the end of the name, counting all of it at once. */
    method FieldCase(data: Bytes, start: nat, mark0: Mark, ghost goal: Outcome) returns (w: Way, mark: Mark, p: nat)
      requires start < |data| && state == InHeader(HeaderField) && MarkFits(state, mark0, start) && 0 < nread <= MAX_HEADER_SIZE
      requires Scans(goal, Counted(nread - 1), FRESH, Merged(calls), mark0, data, start, answer)
      modifies this`hstate, this`index, this`nread, this`state, this`calls
      ensures w != Exit
      ensures w == Error ==> goal == Failed
      ensures w == Ahead ==> start < p <= |data| && nread <= MAX_HEADER_SIZE && MarkFits(state, mark, p)
      ensures w == Ahead ==> goal == RunCall(Value(), FRESH, Pend(Merged(calls), mark, data, p), data[p..], answer)
    {
      hide Push, RunCall, Merged, Pend, Scans, FieldChar, Token;
      mark := mark0;
      p := start;
      ghost var base: nat := nread - 1;
      ghost var c := FRESH;
      while p < |data| && Token(data[p]) != 0
        invariant start <= p <= |data| && state == old(state) && nread == old(nread) && calls == old(calls)
        invariant length == old(length) && msg == old(msg)
        invariant c == if p == start then FRESH else Scan(true, 0)
        invariant Scans(goal, Counted(base + (p - start)), c, Merged(calls), mark, data, p, answer)
      {
        if hstate == General {
          c, p := FieldRun(data, p, mark, base + (p - start), c, goal);
        }
        FieldStep(goal, Counted(base + (p - start)), c, Merged(calls), mark, data, p, answer);
        var m := FieldChar(Matcher(hstate, index), data[p]);
        hstate, index := m.h, m.index;
        p := p + 1;
        c := Scan(true, 0);
      }
      w, p := FieldEnd(data, start, p, mark, base, c, goal);
      if w == Ahead && OpenIn(state) == Shut {
        mark := NoMark;
        PendNow(Merged(calls), data, p);
      }
    }

    /** The inner loop over names that are of no interest. */
    method FieldRun(data: Bytes, p0: nat, mark: Mark, ghost n0: nat, ghost c0: Scan, ghost goal: Outcome)
      returns (ghost c: Scan, p: nat)
      requires p0 < |data| && state == InHeader(HeaderField) && hstate == General && MarkFits(state, mark, p0)
      requires Token(data[p0]) != 0 && Scans(goal, Counted(n0), c0, Merged(calls), mark, data, p0, answer)
      requires c0.mid || n0 + 1 <= MAX_HEADER_SIZE
      ensures p0 <= p < |data| && Token(data[p]) != 0 && c == if p == p0 then c0 else Scan(true, 0)
      ensures Scans(goal, Counted(n0 + (p - p0)), c, Merged(calls), mark, data, p, answer)
    {
      hide Push, RunCall, Merged, Pend, Scans, Token;
      p := p0;
      c := c0;
      var left := |data| - p;
      var pe := p + if left < MAX_HEADER_SIZE then left else MAX_HEADER_SIZE;
      while p + 1 < pe && Token(data[p + 1]) != 0
        invariant p0 <= p < |data| && Token(data[p]) != 0 && c == if p == p0 then c0 else Scan(true, 0)
        invariant Scans(goal, Counted(n0 + (p - p0)), c, Merged(calls), mark, data, p, answer)
      {
        FieldStep(goal, Counted(n0 + (p - p0)), c, Merged(calls), mark, data, p, answer);
        GeneralField(Matcher(hstate, index), data[p]);
        p := p + 1;
        c := Scan(true, 0);
      }
    }

    /** What ends the scan of a name: the end of the input, the colon or an error. */
    method FieldEnd(data: Bytes, start: nat, p: nat, mark: Mark, ghost base: nat, ghost c: Scan, ghost goal: Outcome)
      returns (w: Way, p': nat)
      requires start <= p <= |data| && start < |data| && state == InHeader(HeaderField) && MarkFits(state, mark, p)
      requires p < |data| ==> Token(data[p]) == 0
      requires nread == base + 1 <= MAX_HEADER_SIZE && c == if p == start then FRESH else Scan(true, 0)
      requires Scans(goal, Counted(base + (p - start)), c, Merged(calls), mark, data, p, answer)
      modifies this`nread, this`state, this`calls
      ensures w != Exit
      ensures w == Error ==> goal == Failed
      ensures w == Ahead ==> start < p' <= |data| && nread <= MAX_HEADER_SIZE
      ensures w == Ahead ==> (state == old(state) && p' == p == |data| && calls == old(calls)) || state == InHeader(HeaderValueDiscardWs)
      ensures w == Ahead && state == old(state) ==> goal == RunCall(Value(), FRESH, Pend(Merged(calls), mark, data, p'), data[p'..], answer)
      ensures w == Ahead && state != old(state) ==> goal == RunCall(Value(), FRESH, Merged(calls), data[p'..], answer)
    {
      hide Push, Merged, Pend, Token, RunCall, Scans, OnStatusPart, OnRequestPart, OnUrl, OnBodyPart;
      ghost var q := Counted(base + (p - start));
      if p == |data| {
        ScanStops(goal, q, c, Merged(calls), mark, data, p, answer);
        var ok := CountHeaderSize(p - 1 - start);
        return if ok then Ahead else Error, p;
      }
      ScanEnds(goal, q, c, Merged(calls), mark, data, p, answer);
      var ok := CountHeaderSize(p - start);
      if !ok {
        return Error, p;
      }
      if data[p] != 58 {
        return Error, p;
      }
      PushAllNone(Pend(Merged(calls), mark, data, p));
      state := InHeader(HeaderValueDiscardWs);
      Flush(data, p, mark);
      return Ahead, p + 1;
    }

    /** One character of a value; `h_state` is kept in `hstate` throughout. */
    method ValueByte(b: Byte) returns (ok: bool)
      modifies this`hstate, this`index, this`length, this`msg
      ensures var v := ValueChar(Matcher(old(hstate), old(index)), old(msg.flags), old(length), b);
              && (ok <==> !v.BadValue?)
              && (ok ==> Value() == old(Value()).(hstate := v.m.h, index := v.m.index, length := v.length, msg := old(msg).(flags := v.flags)))
    {
      hide ValueChar;
      var v := ValueChar(Matcher(hstate, index), msg.flags, length, b);
      if v.BadValue? {
        return false;
      }
      hstate, index, length, msg := v.m.h, v.m.index, v.length, msg.(flags := v.flags);
      return true;
    }

    /** `s_header_value`: reads on to the end of the line, counting all of it at once. */
    method ValueCase(data: Bytes, start: nat, mark0: Mark, ghost goal: Outcome) returns (w: Way, mark: Mark, p: nat)
      requires start < |data| && state == InHeader(HeaderValue) && MarkFits(state, mark0, start) && 0 < nread <= MAX_HEADER_SIZE
      requires Scans(goal, Counted(nread - 1), FRESH, Merged(calls), mark0, data, start, answer)
      modifies this`hstate, this`index, this`nread, this`state, this`calls, this`length, this`msg
      ensures w != Exit
      ensures w == Error ==> goal == Failed
      ensures w == Ahead ==> start < p <= |data| && nread <= MAX_HEADER_SIZE && MarkFits(state, mark, p)
      ensures w == Ahead ==> goal == RunCall(Value(), FRESH, Pend(Merged(calls), mark, data, p), data[p..], answer)
    {
      hide Push, RunCall, Merged, Pend, Scans, ValueChar, IsHeaderChar;
      mark := mark0;
      p := start;
      ghost var base: nat := nread - 1;
      ghost var c := FRESH;
      while p < |data| && data[p] != CR && data[p] != LF
        invariant start <= p <= |data| && state == old(state) && nread == old(nread) && calls == old(calls)
        invariant (p > start <==> c.mid) && (p < |data| ==> c.run < MAX_HEADER_SIZE)
        invariant p < |data| && data[p] != CR && data[p] != LF ==> c.run == 0
        invariant Scans(goal, Counted(base + (p - start)), c, Merged(calls), mark, data, p, answer)
      {
        ghost var q := Counted(base + (p - start));
        if !IsHeaderChar(data[p]) {
          BadByte(goal, q, c, Merged(calls), mark, data, p, answer);
          return Error, mark, p;
        }
        if hstate == General {
          var ok;
          ok, c, p := ValueRun(data, p, mark, base + (p - start), c, goal);
          if !ok {
            return Error, mark, p;
          }
        } else {
          ValueStepOn(goal, q, c, Merged(calls), mark, data, p, answer);
          var ok := ValueByte(data[p]);
          if !ok {
            return Error, mark, p;
          }
          p := p + 1;
          c := Scan(true, 0);
        }
      }
      w, p := ValueEnd(data, start, p, mark, base, c, goal);
      if w == Ahead && OpenIn(state) == Shut {
        mark := NoMark;
        PendNow(Merged(calls), data, p);
      }
    }

    /**
     * The inner loop over values that are of no interest, and the step of the outer loop after it.
     * If it stops at its limit and not at the end of the input, that step passes over a byte.
     */
    method ValueRun(data: Bytes, p0: nat, mark: Mark, ghost n0: nat, ghost c0: Scan, ghost goal: Outcome)
      returns (ok: bool, ghost c: Scan, p: nat)
      requires p0 < |data| && data[p0] != CR && data[p0] != LF && c0.run == 0 && (c0.mid || n0 + 1 <= MAX_HEADER_SIZE)
      requires state == InHeader(HeaderValue) && hstate == General && MarkFits(state, mark, p0)
      requires Scans(goal, Counted(n0), c0, Merged(calls), mark, data, p0, answer)
      ensures !ok ==> goal == Failed
      ensures ok ==> p0 < p <= |data| && c.mid && c.run <= MAX_HEADER_SIZE
      ensures ok && p < |data| ==> c.run == 0 || (c.run < MAX_HEADER_SIZE && (data[p] == CR || data[p] == LF))
      ensures ok ==> Scans(goal, Counted(n0 + (p - p0)), c, Merged(calls), mark, data, p, answer)
    {
      hide Push, RunCall, Merged, Pend, Scans, IsHeaderChar;
      p := p0;
      c := c0;
      var left := |data| - p;
      var pe := p + if left < MAX_HEADER_SIZE then left else MAX_HEADER_SIZE;
      while p != pe && data[p] != CR && data[p] != LF
        invariant p0 <= p <= pe && (p == p0 ==> data[p] != CR && data[p] != LF)
        invariant c == if p == p0 then c0 else Scan(true, p - p0)
        invariant Scans(goal, Counted(n0 + (p - p0)), c, Merged(calls), mark, data, p, answer)
        decreases pe - p
      {
        ghost var q := Counted(n0 + (p - p0));
        if !IsHeaderChar(data[p]) {
          BadByte(goal, q, c, Merged(calls), mark, data, p, answer);
          return false, c, p;
        }
        ValueStepOn(goal, q, c, Merged(calls), mark, data, p, answer);
        GeneralValue(Matcher(hstate, index), msg.flags, length, data[p]);
        p := p + 1;
        c := Scan(true, p - p0);
      }
      if p == pe && p != |data| {
        PassOver(goal, Counted(n0 + (p - p0)), c, Merged(calls), mark, data, p, answer);
        p := p + 1;
        c := Scan(true, 0);
      }
      return true, c, p;
    }

    /** What ends the scan of a value: the end of the input or of the line. */
    method ValueEnd(data: Bytes, start: nat, p: nat, mark: Mark, ghost base: nat, ghost c: Scan, ghost goal: Outcome)
      returns (w: Way, p': nat)
      requires start <= p <= |data| && start < |data| && state == InHeader(HeaderValue) && MarkFits(state, mark, p)
      requires p < |data| ==> (data[p] == CR || data[p] == LF) && c.run < MAX_HEADER_SIZE
      requires nread == base + 1 <= MAX_HEADER_SIZE && (p > start <==> c.mid)
      requires Scans(goal, Counted(base + (p - start)), c, Merged(calls), mark, data, p, answer)
      modifies this`nread, this`state, this`calls
      ensures w != Exit
      ensures w == Error ==> goal == Failed
      ensures w == Ahead ==> start < p' <= |data| && nread <= MAX_HEADER_SIZE
      ensures w == Ahead ==> (state == old(state) && p' == p == |data| && calls == old(calls)) || OpenIn(state) == Shut
      ensures w == Ahead && state == old(state) ==> goal == RunCall(Value(), FRESH, Pend(Merged(calls), mark, data, p'), data[p'..], answer)
      ensures w == Ahead && state != old(state) ==> goal == RunCall(Value(), FRESH, Merged(calls), data[p'..], answer)
    {
      hide Push, Merged, Pend, RunCall, Scans;
      ghost var q := Counted(base + (p - start));
      if p == |data| {
        ScanStops(goal, q, c, Merged(calls), mark, data, p, answer);
        var ok := CountHeaderSize(p - 1 - start);
        return if ok then Ahead else Error, p;
      }
      LineEndByte(goal, q, c, Merged(calls), mark, data, p, answer);
      if data[p] == CR {
        state := InHeader(HeaderAlmostDone);
        Flush(data, p, mark);
        var ok := CountHeaderSize(p - start);
        return if ok then Ahead else Error, p + 1;
      }
      state := InHeader(HeaderAlmostDone);
      var ok := CountHeaderSize(p - start);
      if !ok {
        return Error, p;
      }
      Flush(data, p, mark);
      state := InHeader(HeaderValueLws); // `s_header_almost_done` on the same byte
      return Ahead, p + 1;
    }

    /** One turn of the main loop. */
    method Turn(data: Bytes, p: nat, mark0: Mark, ghost goal: Outcome) returns (w: Way, mark: Mark, p': nat)
      requires p < |data| && MarkFits(state, mark0, p) && nread <= MAX_HEADER_SIZE
      requires goal == RunCall(Value(), FRESH, Pend(Merged(calls), mark0, data, p), data[p..], answer)
      modifies this
      ensures failed == old(failed)
      ensures w == Error ==> goal == Failed
      ensures w != Error ==> p < p' <= |data| && nread <= MAX_HEADER_SIZE
      ensures w == Exit ==> goal == Switched(Value(), Merged(calls), data[p'..]) && OpenIn(state) == Shut
      ensures w == Ahead ==> MarkFits(state, mark, p')
      ensures w == Ahead ==> goal == RunCall(Value(), FRESH, Pend(Merged(calls), mark, data, p'), data[p'..], answer)
    {
      hide Push, Merged, Pend, RunCall, Dispatch;
      mark, p' := mark0, p;
      StartScan(goal, Value(), Merged(calls), mark, data, p, answer);
      ghost var q := Value();
      if ParsingHeader(state) {
        var ok := CountHeaderSize(1);
        if !ok {
          TooLong(goal, q, Pend(Merged(calls), mark, data, p), data, p, answer);
          return Error, mark, p;
        }
        if state == InHeader(HeaderField) {
          w, mark, p' := FieldCase(data, p, mark, goal);
          return;
        }
        if state == InHeader(HeaderValue) {
          w, mark, p' := ValueCase(data, p, mark, goal);
          return;
        }
        FirstByte(goal, q, Pend(Merged(calls), mark, data, p), data, p, answer);
      } else {
        FirstByte(goal, q, Pend(Merged(calls), mark, data, p), data, p, answer);
        if state == InBody(ChunkData) || state == InBody(BodyIdentity) {
          if length == 0 { // the assertion at the head of both cases
            EmptyBody(Value(), data[p], answer);
            return Error, mark, p;
          }
          if state == InBody(ChunkData) {
            mark, p' := ChunkCase(data, p, mark, goal);
            return Ahead, mark, p';
          }
          w, mark, p' := IdentityCase(data, p, mark, goal);
          return;
        }
        if state == InBody(BodyIdentityEof) {
          mark, p' := EofCase(data, p, mark, goal);
          return Ahead, mark, p';
        }
      }
      w, mark := OneByte(data, p, mark, goal);
      p' := p + 1;
    }

    /**
     * The call with no input that reports the end of the connection: it is accepted if and only if
     * every message that was begun is complete then.
     */
    method AtEof() returns (ok: bool)
      requires Valid()
      modifies this`calls, this`failed
      ensures ok <==> Unfinished(Merged(calls)) == 0
      ensures Value() == old(Value()) && calls == old(calls) + EofEvents(state)
      ensures failed == (old(failed) || !ok)
    {
      hide Unfinished, PushAll, Merged;
      EofCounts(state, Merged(calls));
      MergedAll(calls, EofEvents(state));
      assert calls + [] == calls;
      match state {
        case InBody(BodyIdentityEof) =>
          calls := calls + [Notify(MessageComplete)];
          return true;
        case InStatus(Dead) => return true;
        case InStatus(StartReqOrRes) => return true;
        case InStatus(StartRes) => return true;
        case InRequest(StartReq) => return true;
        case _ =>
          failed := true;
          return false;
      }
    }

    /**
     * `http_parser_execute` on a piece of input of any length: it fails, leaves the protocol or ends
     * exactly as `RunCall` says, in the same state and after the same callbacks, joined data joined;
     * `read` bytes were read.
     */
    method Execute(data: Bytes) returns (w: Way, read: nat)
      requires Valid() && !failed && data != []
      modifies this
      ensures failed <==> w == Error
      ensures match RunCall(old(Value()), FRESH, old(Merged(calls)), data, answer)
              case Failed => w == Error
              case Switched(q, log, rest) =>
                w == Exit && Valid() && Value() == q && Merged(calls) == log && 0 < read <= |data| && data[read..] == rest
              case Going(q, log) => w == Ahead && Valid() && Value() == q && Merged(calls) == log && read == |data|
    {
      hide Push, Merged, Pend, RunCall, Unfinished;
      CallAccounted(Value(), FRESH, Merged(calls), data, answer);
      ghost var goal := RunCall(Value(), FRESH, Merged(calls), data, answer);
      var mark := if OpenIn(state).Open? then At(OpenIn(state).element, 0) else NoMark;
      if mark.At? {
        PendNothing(Merged(calls), mark.element, data, 0);
      } else {
        PendNow(Merged(calls), data, 0);
      }
      assert data[0..] == data;
      var p: nat := 0;
      while p != |data|
        invariant p <= |data| && !failed && nread <= MAX_HEADER_SIZE && MarkFits(state, mark, p)
        invariant goal == RunCall(Value(), FRESH, Pend(Merged(calls), mark, data, p), data[p..], answer)
        decreases |data| - p
      {
        w, mark, p := Turn(data, p, mark, goal);
        if w == Error {
          failed := true;
          return w, p;
        }
        if w == Exit {
          return w, p;
        }
      }
      assert data[p..] == [];
      CallNone(Value(), Pend(Merged(calls), mark, data, p), answer);
      if mark.At? {
        PushEnds(Merged(calls), mark.element, data[mark.from..p]);
        PendIs(Merged(calls), mark, data, p);
      }
      Flush(data, p, mark);
      return Ahead, p;
    }
  }

  lemma CastFirst(n: nat, v: nat)
    ensures (n + v % UINT32) % UINT32 == (n + v) % UINT32
  {
  }

  lemma CallNone(q: Parser, log: seq<Event>, answer: Answer)
    ensures RunCall(q, FRESH, log, [], answer) == Going(q, log)
  {
  }

  lemma PendIs(log: seq<Event>, mark: Mark, data: Bytes, p: nat)
    requires p <= |data| && mark.At? && mark.from <= p
    ensures Pend(log, mark, data, p) == Push(log, Data(mark.element, data[mark.from..p]))
  {
  }

  /** A scan has come to byte `p`, `q.nread` bytes counted so far: the rest of the call decides. */
  ghost predicate Scans(goal: Outcome, q: Parser, c: Scan, log: seq<Event>, mark: Mark, data: Bytes, p: nat, answer: Answer)
  {
    p <= |data| && (mark.At? ==> mark.from <= p) && goal == RunCall(q, c, Pend(log, mark, data, p), data[p..], answer)
  }

  /** The next byte of a scan. */
  lemma ScanByte(goal: Outcome, q: Parser, c: Scan, log: seq<Event>, mark: Mark, data: Bytes, p: nat, answer: Answer)
    requires Scans(goal, q, c, log, mark, data, p, answer) && p < |data| && Scanning(q.state)
    ensures match ScanStep(q, c, data[p], answer)
            case Rejected => goal == Failed
            case Upgraded(q', es) => goal == Switched(q', PushAll(Pend(log, mark, data, p), es), data[p + 1..])
            case Next(q', es) =>
              goal == RunCall(q', ScanAfter(q, c, data[p]), PushAll(Pend(log, mark, data, p), es), data[p + 1..], answer)
  {
    hide ScanStep, ScanAfter, Pend;
    assert data[p..][0] == data[p] && data[p..][1..] == data[p + 1..];
  }

  /** The end of the call in the middle of a scan. */
  lemma ScanStops(goal: Outcome, q: Parser, c: Scan, log: seq<Event>, mark: Mark, data: Bytes, p: nat, answer: Answer)
    requires Scans(goal, q, c, log, mark, data, p, answer) && p == |data| && c.mid
    ensures var n := q.nread % UINT32;
            goal == if n > MAX_HEADER_SIZE then Failed
                    else RunCall(q.(nread := n), FRESH, Pend(log, mark, data, p), data[p..], answer)
  {
    hide Pend;
    assert data[p..] == [];
  }

  /** The byte that ends a name. */
  lemma ScanEnds(goal: Outcome, q: Parser, c: Scan, log: seq<Event>, mark: Mark, data: Bytes, p: nat, answer: Answer)
    requires Scans(goal, q, c, log, mark, data, p, answer) && p < |data| && q.state == InHeader(HeaderField)
    requires !GoesOn(q.state, data[p]) && (c.mid || q.nread < MAX_HEADER_SIZE)
    ensures var n := (q.nread + 1) % UINT32;
            if n > MAX_HEADER_SIZE || data[p] != 58 then goal == Failed
            else goal == RunCall(q.(nread := n, state := InHeader(HeaderValueDiscardWs)), FRESH,
                                 PushAll(Pend(log, mark, data, p), []), data[p + 1..], answer)
  {
    hide Pend, RunCall, Token, OnStatusPart, OnRequestPart, OnUrl, OnBodyPart;
    ScanByte(goal, q, c, log, mark, data, p, answer);
    EndOfName(q.(nread := (q.nread + 1) % UINT32), data[p], answer);
  }

  lemma EndOfName(q: Parser, b: Byte, answer: Answer)
    requires q.state == InHeader(HeaderField) && Token(b) == 0
    ensures Dispatch(q, b, answer) == if b == 58 then Next(q.(state := InHeader(HeaderValueDiscardWs)), []) else HttpMachine.Rejected
  {
    hide Token;
  }

  lemma FieldStep(goal: Outcome, q: Parser, c: Scan, log: seq<Event>, mark: Mark, data: Bytes, p: nat, answer: Answer)
    requires Scans(goal, q, c, log, mark, data, p, answer) && p < |data| && q.state == InHeader(HeaderField) && Token(data[p]) != 0
    requires mark.At? && mark.element == Field && (c.mid || q.nread < MAX_HEADER_SIZE)
    ensures var m := FieldChar(Matcher(q.hstate, q.index), data[p]);
            Scans(goal, q.(nread := q.nread + 1, hstate := m.h, index := m.index), Scan(true, 0), log, mark, data, p + 1, answer)
  {
    hide Push, RunCall, FieldChar, Token, Dispatch;
    NameByte(q.(nread := q.nread + 1), data[p], answer);
    ScanByte(goal, q, c, log, mark, data, p, answer);
    PushAllOne(Pend(log, mark, data, p), Data(Field, [data[p]]));
    PendMore(log, mark, data, p, 1);
    assert data[p..p + 1] == [data[p]];
  }

  lemma GeneralField(m: Matcher, b: Byte)
    requires m.h == General
    ensures FieldChar(m, b) == m
  {
  }

  /** A byte no value may contain. */
  lemma BadByte(goal: Outcome, q: Parser, c: Scan, log: seq<Event>, mark: Mark, data: Bytes, p: nat, answer: Answer)
    requires Scans(goal, q, c, log, mark, data, p, answer) && p < |data| && q.state == InHeader(HeaderValue)
    requires data[p] != CR && data[p] != LF && !IsHeaderChar(data[p]) && !PassesOver(q, c)
    ensures goal == Failed
  {
    hide Pend, RunCall, ValueChar, Dispatch;
    ScanByte(goal, q, c, log, mark, data, p, answer);
    BadValueByte(q.(nread := (q.nread + 1) % UINT32), data[p], answer);
  }

  lemma BadValueByte(q: Parser, b: Byte, answer: Answer)
    requires q.state == InHeader(HeaderValue) && b != CR && b != LF && !IsHeaderChar(b)
    ensures Dispatch(q, b, answer) == HttpMachine.Rejected
  {
  }

  lemma ValueStepOn(goal: Outcome, q: Parser, c: Scan, log: seq<Event>, mark: Mark, data: Bytes, p: nat, answer: Answer)
    requires Scans(goal, q, c, log, mark, data, p, answer) && p < |data| && q.state == InHeader(HeaderValue)
    requires data[p] != CR && data[p] != LF && IsHeaderChar(data[p]) && !PassesOver(q, c) && (c.mid || q.nread < MAX_HEADER_SIZE)
    requires mark.At? && mark.element == Value
    ensures var v := ValueChar(Matcher(q.hstate, q.index), q.msg.flags, q.length, data[p]);
            if v.BadValue? then goal == Failed
            else Scans(goal, q.(nread := q.nread + 1, hstate := v.m.h, index := v.m.index, length := v.length, msg := q.msg.(flags := v.flags)),
                       Scan(true, if q.hstate == General then c.run + 1 else 0), log, mark, data, p + 1, answer)
  {
    hide Push, RunCall, ValueChar, Dispatch, IsHeaderChar;
    ValueCharByte(q.(nread := q.nread + 1), data[p], answer);
    ScanByte(goal, q, c, log, mark, data, p, answer);
    PushAllOne(Pend(log, mark, data, p), Data(Value, [data[p]]));
    PendMore(log, mark, data, p, 1);
    assert data[p..p + 1] == [data[p]];
  }

  lemma ValueCharByte(q: Parser, b: Byte, answer: Answer)
    requires q.state == InHeader(HeaderValue) && b != CR && b != LF && IsHeaderChar(b)
    ensures var v := ValueChar(Matcher(q.hstate, q.index), q.msg.flags, q.length, b);
            Dispatch(q, b, answer) ==
            if v.BadValue? then HttpMachine.Rejected
            else Next(q.(hstate := v.m.h, index := v.m.index, length := v.length, msg := q.msg.(flags := v.flags)), [Data(Value, [b])])
  {
    hide ValueChar, IsHeaderChar;
  }

  lemma GeneralValue(m: Matcher, f: Flags, length: nat, b: Byte)
    requires m.h == General
    ensures ValueChar(m, f, length, b) == ValueStep(m, f, length)
  {
  }

  /** A byte passed over at the limit of the inner loop. */
  lemma PassOver(goal: Outcome, q: Parser, c: Scan, log: seq<Event>, mark: Mark, data: Bytes, p: nat, answer: Answer)
    requires Scans(goal, q, c, log, mark, data, p, answer) && p < |data| && PassesOver(q, c) && c.mid
    requires mark.At? && mark.element == Value
    ensures Scans(goal, q.(nread := q.nread + 1), Scan(true, 0), log, mark, data, p + 1, answer)
  {
    hide Push, RunCall, Dispatch;
    ScanByte(goal, q, c, log, mark, data, p, answer);
    PushAllOne(Pend(log, mark, data, p), Data(Value, [data[p]]));
    PendMore(log, mark, data, p, 1);
    assert data[p..p + 1] == [data[p]];
  }

  /** The end of a line of a value. */
  lemma LineEndByte(goal: Outcome, q: Parser, c: Scan, log: seq<Event>, mark: Mark, data: Bytes, p: nat, answer: Answer)
    requires Scans(goal, q, c, log, mark, data, p, answer) && p < |data| && q.state == InHeader(HeaderValue)
    requires (data[p] == CR || data[p] == LF) && !PassesOver(q, c) && (c.mid || q.nread < MAX_HEADER_SIZE)
    ensures var n := (q.nread + 1) % UINT32;
            if n > MAX_HEADER_SIZE then goal == Failed
            else goal == RunCall(q.(nread := n, state := InHeader(if data[p] == CR then HeaderAlmostDone else HeaderValueLws)), FRESH,
                                 Pend(log, mark, data, p), data[p + 1..], answer)
  {
    hide Pend, Push, RunCall, Dispatch, IsHeaderChar;
    ScanByte(goal, q, c, log, mark, data, p, answer);
    LineEnd(q.(nread := (q.nread + 1) % UINT32), data[p], answer);
    PushAllNone(Pend(log, mark, data, p));
  }

  lemma LineEnd(q: Parser, b: Byte, answer: Answer)
    requires q.state == InHeader(HeaderValue) && (b == CR || b == LF)
    ensures Dispatch(q, b, answer) == Next(q.(state := InHeader(if b == CR then HeaderAlmostDone else HeaderValueLws)), [])
  {
  }

  lemma StartScan(goal: Outcome, q: Parser, log: seq<Event>, mark: Mark, data: Bytes, p: nat, answer: Answer)
    requires p < |data| && (mark.At? ==> mark.from <= p)
    requires goal == RunCall(q, FRESH, Pend(log, mark, data, p), data[p..], answer)
    ensures Scans(goal, q, FRESH, log, mark, data, p, answer)
  {
  }

  /** A byte that is not part of a name or value. */
  lemma FirstByte(goal: Outcome, q: Parser, log: seq<Event>, data: Bytes, p: nat, answer: Answer)
    requires p < |data| && !Scanning(q.state) && goal == RunCall(q, FRESH, log, data[p..], answer)
    ensures if !ParsingHeader(q.state) then goal == Again(Stepped(Dispatch(q, data[p], answer), log), data[p + 1..], answer)
            else if q.nread + 1 > MAX_HEADER_SIZE then goal == Failed
            else goal == Again(Stepped(Dispatch(q.(nread := q.nread + 1), data[p], answer), log), data[p + 1..], answer)
  {
    hide Dispatch;
    assert data[p..][0] == data[p] && data[p..][1..] == data[p + 1..];
  }

  /** One header byte too many. */
  lemma TooLong(goal: Outcome, q: Parser, log: seq<Event>, data: Bytes, p: nat, answer: Answer)
    requires p < |data| && ParsingHeader(q.state) && q.nread + 1 > MAX_HEADER_SIZE
    requires goal == RunCall(q, FRESH, log, data[p..], answer)
    ensures goal == Failed
  {
    TooMany(q, log, data[p..], answer);
  }

  lemma EmptyBody(q: Parser, b: Byte, answer: Answer)
    requires q.length == 0 && (q.state == InBody(ChunkData) || q.state == InBody(BodyIdentity))
    ensures Dispatch(q, b, answer) == HttpMachine.Rejected
  {
  }

  lemma PendNow(log: seq<Event>, data: Bytes, p: nat)
    requires p <= |data|
    ensures Pend(log, NoMark, data, p) == log
  {
  }

  /** A byte does not lead from one element right into another. */
  lemma SameElement(q: Parser, b: Byte, answer: Answer, mark: Mark, p: nat)
    requires Single(q.state) && MarkFits(q.state, mark, p) && mark.At?
    ensures var r := Dispatch(q, b, answer);
            !r.Rejected? && OpenIn(r.p.state).Open? ==> mark.element == OpenIn(r.p.state).element
  {
    hide ParseUrlChar, OnRequestPart, OnHeaderPart, ShouldKeepAlive, NeedsEof, Unhex;
  }

  lemma PendNone(log: seq<Event>, data: Bytes, p: nat)
    requires p < |data|
    ensures Pend(log, NoMark, data, p) == Pend(log, NoMark, data, p + 1) == log
  {
  }

  lemma PendFirst(log: seq<Event>, e: Element, data: Bytes, p: nat)
    requires p < |data|
    ensures Pend(log, At(e, p), data, p + 1) == Push(log, Data(e, data[p..p + 1]))
  {
  }

  // ---- Runs within one state ----

  lemma BodyByte(q: Parser, b: Byte, answer: Answer)
    requires q.length > 0
    ensures q.state == InBody(BodyIdentity) && q.length > 1 ==>
              OnByte(q, b, answer) == Next(q.(length := q.length - 1), [Data(Body, [b])])
    ensures q.state == InBody(ChunkData) ==>
              OnByte(q, b, answer) == Next(q.(length := q.length - 1, state := if q.length == 1 then InBody(ChunkDataAlmostDone) else q.state), [Data(Body, [b])])
  {
  }

  /** Body bytes of a known length, up to the last but one. */
  lemma {:induction false} RunIdentity(q: Parser, log: seq<Event>, s: Bytes, n: nat, answer: Answer)
    requires q.state == InBody(BodyIdentity) && 0 < n <= |s| && n < q.length
    ensures Run(q, log, s, answer) == Run(q.(length := q.length - n), Push(log, Data(Body, s[..n])), s[n..], answer)
    decreases |s|
  {
    hide Push, OnByte;
    BodyByte(q, s[0], answer);
    PushAllOne(log, Data(Body, [s[0]]));
    if n == 1 {
      assert s[..1] == [s[0]];
    } else {
      RunIdentity(q.(length := q.length - 1), Push(log, Data(Body, [s[0]])), s[1..], n - 1, answer);
      PushTwice(log, Body, [s[0]], s[1..][..n - 1]);
      assert s[..n] == [s[0]] + s[1..][..n - 1] && s[1..][n - 1..] == s[n..];
    }
  }

  /** All body bytes: the message is complete with the last one. */
  lemma RunIdentityAll(q: Parser, log: seq<Event>, s: Bytes, n: nat, answer: Answer)
    requires q.state == InBody(BodyIdentity) && 0 < n <= |s| && n == q.length
    ensures Run(q, log, s, answer) ==
            Then(Stepped(OnMessageDone(q.(length := 0, state := InBody(MessageDone))), Push(log, Data(Body, s[..n]))), s[n..], answer)
  {
    hide Push, NewMessage;
    var q1, log1, s1 := q.(length := 1), log, s;
    if n > 1 {
      RunIdentity(q, log, s, n - 1, answer);
      log1, s1 := Push(log, Data(Body, s[..n - 1])), s[n - 1..];
      PushTwice(log, Body, s[..n - 1], [s[n - 1]]);
      assert s[..n - 1] + [s[n - 1]] == s[..n] && s1[1..] == s[n..];
    } else {
      assert s[..1] == [s[0]];
    }
    var d := OnMessageDone(q.(length := 0, state := InBody(MessageDone)));
    PushAllTwo(log1, Data(Body, [s1[0]]), d);
    assert OnByte(q1, s1[0], answer) == Before([Data(Body, [s1[0]])], d);
  }

  lemma PushAllTwo(log: seq<Event>, e: Event, r: Step)
    ensures !r.Rejected? ==> PushAll(log, [e] + r.events) == PushAll(Push(log, e), r.events)
  {
    assert !r.Rejected? ==> ([e] + r.events)[1..] == r.events;
  }

  lemma {:induction false} RunChunk(q: Parser, log: seq<Event>, s: Bytes, n: nat, answer: Answer)
    requires q.state == InBody(ChunkData) && 0 < n <= |s| && n <= q.length
    ensures Run(q, log, s, answer) ==
            Run(q.(length := q.length - n, state := if n == q.length then InBody(ChunkDataAlmostDone) else q.state),
                Push(log, Data(Body, s[..n])), s[n..], answer)
    decreases |s|
  {
    hide Push, OnByte;
    BodyByte(q, s[0], answer);
    PushAllOne(log, Data(Body, [s[0]]));
    var q1 := q.(length := q.length - 1, state := if q.length == 1 then InBody(ChunkDataAlmostDone) else q.state);
    var log1 := Push(log, Data(Body, [s[0]]));
    assert Run(q, log, s, answer) == Run(q1, log1, s[1..], answer);
    hide Run;
    if n == 1 {
      assert s[..1] == [s[0]];
    } else {
      RunChunk(q1, log1, s[1..], n - 1, answer);
      PushTwice(log, Body, [s[0]], s[1..][..n - 1]);
      assert s[..n] == [s[0]] + s[1..][..n - 1] && s[1..][n - 1..] == s[n..];
    }
  }

  lemma {:induction false} RunEof(q: Parser, log: seq<Event>, s: Bytes, answer: Answer)
    requires q.state == InBody(BodyIdentityEof) && s != []
    ensures Run(q, log, s, answer) == Going(q, Push(log, Data(Body, s)))
    decreases |s|
  {
    hide Push;
    PushAllOne(log, Data(Body, [s[0]]));
    if |s| == 1 {
      assert s == [s[0]];
    } else {
      RunEof(q, Push(log, Data(Body, [s[0]])), s[1..], answer);
      PushTwice(log, Body, [s[0]], s[1..]);
      assert s == [s[0]] + s[1..];
    }
  }

  // ---- Calls within one state ----

  /** Outside names and values. */
  predicate Quiet(o: Outcome)
  {
    o.Going? && !Scanning(o.p.state)
  }

  /** Outside names and values a call is the byte-wise machine. */
  lemma {:induction false} CallAlong(q: Parser, log: seq<Event>, s: Bytes, n: nat, answer: Answer)
    requires n <= |s| && forall k :: 0 <= k < n ==> Quiet(Run(q, log, s[..k], answer))
    ensures RunCall(q, FRESH, log, s, answer) == Again(Run(q, log, s[..n], answer), s[n..], answer)
    decreases n
  {
    hide OnByte, PushAll;
    if n == 0 {
      assert s[..0] == [] && s[0..] == s;
    } else {
      assert s[..0] == [] && Quiet(Run(q, log, s[..0], answer));
      assert s[..n][1..] == s[1..][..n - 1] && s[1..][n - 1..] == s[n..];
      var r := OnByte(q, s[0], answer);
      if r.Next? {
        var log1 := PushAll(log, r.events);
        forall k | 0 <= k < n - 1
          ensures Quiet(Run(r.p, log1, s[1..][..k], answer))
        {
          assert s[..k + 1][1..] == s[1..][..k];
          assert Quiet(Run(q, log, s[..k + 1], answer));
        }
        CallAlong(r.p, log1, s[1..], n - 1, answer);
      }
    }
  }

  lemma IdentityQuiet(q: Parser, log: seq<Event>, s: Bytes, k: nat, answer: Answer)
    requires q.state == InBody(BodyIdentity) && k <= |s| && k < q.length
    ensures Run(q, log, s[..k], answer) == Going(q.(length := q.length - k), if k == 0 then log else Push(log, Data(Body, s[..k])))
  {
    if k > 0 {
      RunIdentity(q, log, s[..k], k, answer);
      assert s[..k][..k] == s[..k] && s[..k][k..] == [];
    }
  }

  lemma ChunkQuiet(q: Parser, log: seq<Event>, s: Bytes, k: nat, answer: Answer)
    requires q.state == InBody(ChunkData) && 0 < k <= |s| && k <= q.length
    ensures Run(q, log, s[..k], answer) ==
            Going(q.(length := q.length - k, state := if k == q.length then InBody(ChunkDataAlmostDone) else q.state), Push(log, Data(Body, s[..k])))
  {
    hide Push;
    RunChunk(q, log, s[..k], k, answer);
    assert s[..k][..k] == s[..k] && s[..k][k..] == [];
    RunNone(q.(length := q.length - k, state := if k == q.length then InBody(ChunkDataAlmostDone) else q.state), Push(log, Data(Body, s[..k])), answer);
  }

  /** Body bytes of a known length. */
  lemma CallIdentity(q: Parser, log: seq<Event>, s: Bytes, n: nat, answer: Answer)
    requires q.state == InBody(BodyIdentity) && 0 < n <= |s| && n <= q.length
    ensures var log1 := Push(log, Data(Body, s[..n]));
            RunCall(q, FRESH, log, s, answer) ==
            if n < q.length then RunCall(q.(length := q.length - n), FRESH, log1, s[n..], answer)
            else Again(Stepped(OnMessageDone(q.(length := 0, state := InBody(MessageDone))), log1), s[n..], answer)
  {
    hide Push, NewMessage, Run, RunCall;
    forall k | 0 <= k < n
      ensures Quiet(Run(q, log, s[..k], answer))
    {
      IdentityQuiet(q, log, s, k, answer);
    }
    CallAlong(q, log, s, n, answer);
    if n < q.length {
      IdentityQuiet(q, log, s, n, answer);
    } else {
      var o := Stepped(OnMessageDone(q.(length := 0, state := InBody(MessageDone))), Push(log, Data(Body, s[..n])));
      assert s[..n][..n] == s[..n] && s[..n][n..] == [];
      RunIdentityAll(q, log, s[..n], n, answer);
      if o.Going? {
        RunNone(o.p, o.log, answer);
      }
    }
  }

  lemma CallChunk(q: Parser, log: seq<Event>, s: Bytes, n: nat, answer: Answer)
    requires q.state == InBody(ChunkData) && 0 < n <= |s| && n <= q.length
    ensures RunCall(q, FRESH, log, s, answer) ==
            RunCall(q.(length := q.length - n, state := if n == q.length then InBody(ChunkDataAlmostDone) else q.state), FRESH,
                    Push(log, Data(Body, s[..n])), s[n..], answer)
  {
    hide Push, Run, RunCall;
    assert s[..0] == [];
    RunNone(q, log, answer);
    forall k | 0 <= k < n
      ensures Quiet(Run(q, log, s[..k], answer))
    {
      if k > 0 {
        ChunkQuiet(q, log, s, k, answer);
      }
    }
    CallAlong(q, log, s, n, answer);
    ChunkQuiet(q, log, s, n, answer);
  }

  lemma CallEof(q: Parser, log: seq<Event>, s: Bytes, answer: Answer)
    requires q.state == InBody(BodyIdentityEof) && s != []
    ensures RunCall(q, FRESH, log, s, answer) == Going(q, Push(log, Data(Body, s)))
  {
    hide Push, Run, RunCall;
    assert s[..0] == [];
    RunNone(q, log, answer);
    forall k | 0 <= k < |s|
      ensures Quiet(Run(q, log, s[..k], answer))
    {
      if k > 0 {
        RunEof(q, log, s[..k], answer);
      }
    }
    CallAlong(q, log, s, |s|, answer);
    assert s[..|s|] == s && s[|s|..] == [];
    RunEof(q, log, s, answer);
    CallNone(q, Push(log, Data(Body, s)), answer);
  }
}
