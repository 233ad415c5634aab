/** What the header block decides about the body: one Content-Length line, or one that says "chunked". */
module HttpHeaders {
  import opened Bits
  import opened HttpMachine
  import opened HttpParsers
  import opened HttpFraming

  // ---- What the rest of a header block keeps ----

  /** A length has been given and is complete. */
  predicate LengthFixed(p: Parser)
  {
    p.msg.flags.contentLength
    && !(p.state == InHeader(HeaderValue) && (p.hstate == ContentLength || p.hstate == ContentLengthNum))
  }

  /** The input stays in the header block. */
  predicate InBlock(p: Parser, s: Bytes, answer: Answer)
    decreases |s|
  {
    p.state.InHeader? && (s == [] || (OnByte(p, s[0], answer).Next? && InBlock(OnByte(p, s[0], answer).p, s[1..], answer)))
  }

  predicate FlagsKept(f: Flags, f': Flags)
  {
    f'.trailing == f.trailing && f'.skipBody == f.skipBody && (f.chunked ==> f'.chunked) && (f.contentLength ==> f'.contentLength)
  }

  /** A length that is complete and the chunked flag stay what they are. */
  predicate Kept(p: Parser, p': Parser)
  {
    && FlagsKept(p.msg.flags, p'.msg.flags)
    && p'.msg.kind == p.msg.kind && p'.msg.verb == p.msg.verb && p'.msg.status == p.msg.status
    && (LengthFixed(p) ==> LengthFixed(p') && p'.length == p.length)
  }

  ghost predicate Keeping(p: Parser, r: Step)
  {
    r.Next? && r.p.state.InHeader? ==> Kept(p, r.p)
  }

  lemma EndOfBlock(p: Parser, b: Byte, answer: Answer)
    ensures var r := OnHeadersAlmostDone(p, b, answer); r.Next? ==> !r.p.state.InHeader?
  {
    hide NeedsEof, ShouldKeepAlive;
  }

  lemma KeepingFieldStart(p: Parser, q: Parser, b: Byte, answer: Answer)
    requires FlagsKept(p.msg.flags, q.msg.flags) && q.length == p.length && q.msg == p.msg.(flags := q.msg.flags)
    ensures Keeping(p, OnFieldStart(q, b, answer)) && Keeping(p, Before([Data(Value, [])], OnFieldStart(q, b, answer)))
  {
    EndOfBlock(q, b, answer);
    hide OnHeadersAlmostDone, Token;
  }

  /** A character of a value keeps a length that is complete. */
  predicate ValueKept(f: Flags, length: nat, v: ValueStep)
  {
    v.ValueStep? ==>
      && FlagsKept(f, v.flags)
      && (f.contentLength ==> v.length == length && v.m.h != ContentLength && v.m.h != ContentLengthNum)
  }

  lemma EntryKept(h: HState, f: Flags, length: nat, b: Byte)
    ensures ValueKept(f, length, ValueEntry(h, f, length, b))
  {
  }

  lemma CharKept(m: Matcher, f: Flags, length: nat, b: Byte)
    ensures var v := ValueChar(m, f, length, b);
            v.ValueStep? ==> FlagsKept(f, v.flags) && (m.h != ContentLength && m.h != ContentLengthNum ==> ValueKept(f, length, v))
  {
    MatchKept(m, Lower(b));
    if m.h == KeepAliveValue || m.h == CloseValue || m.h == ConnUpgradeValue {
      ListedKept(m.h, f);
    }
    hide Match, Token, Lower, Listed;
  }

  /** Matching leads to no length. */
  lemma MatchKept(m: Matcher, c: Byte)
    ensures m.h == MatchChunked ==> var h := Match("chunked", m, c, ChunkedValue, General).h; h == ChunkedValue || h == General || h == m.h
    ensures m.h == MatchKeepAlive ==> var h := Match("keep-alive", m, c, KeepAliveValue, ConnToken).h; h == KeepAliveValue || h == ConnToken || h == m.h
    ensures m.h == MatchClose ==> var h := Match("close", m, c, CloseValue, ConnToken).h; h == CloseValue || h == ConnToken || h == m.h
    ensures m.h == MatchConnUpgrade ==> var h := Match("upgrade", m, c, ConnUpgradeValue, ConnToken).h; h == ConnUpgradeValue || h == ConnToken || h == m.h
  {
    hide Is;
  }

  lemma InValueKept(p: Parser, q: Parser, v: ValueStep, b: Byte)
    requires ValueKept(p.msg.flags, p.length, v) || (!LengthFixed(p) && (v.ValueStep? ==> FlagsKept(p.msg.flags, v.flags)))
    requires q.msg == p.msg
    ensures Keeping(p, InValue(q, v, b))
  {
  }

  lemma KeepingValueStart(p: Parser, q: Parser, b: Byte)
    requires q.msg == p.msg && q.length == p.length
    ensures Keeping(p, OnValueStart(q, b))
  {
    EntryKept(q.hstate, q.msg.flags, q.length, b);
    InValueKept(p, q, ValueEntry(q.hstate, q.msg.flags, q.length, b), b);
    hide ValueEntry, InValue;
  }

  lemma KeepingValue(p: Parser, b: Byte)
    requires p.state == InHeader(HeaderValue)
    ensures Keeping(p, OnValue(p, b))
  {
    CharKept(Matcher(p.hstate, p.index), p.msg.flags, p.length, b);
    InValueKept(p, p, ValueChar(Matcher(p.hstate, p.index), p.msg.flags, p.length, b), b);
    hide ValueChar, InValue, IsHeaderChar;
  }

  lemma FinishedKept(h: HState, f: Flags)
    ensures FlagsKept(f, Finished(h, f))
  {
    if h == ChunkedValue {
      return;
    }
    ListedKept(h, f);
    hide Listed;
  }

  lemma ListedKept(h: HState, f: Flags)
    ensures FlagsKept(f, Listed(h, f))
  {
    if h == KeepAliveValue {
    } else if h == CloseValue {
    } else if h == ConnUpgradeValue {
    }
  }

  lemma KeepingLws(p: Parser, b: Byte, answer: Answer)
    requires p.state.InHeader? && p.state.h != HeaderValue
    ensures Keeping(p, OnValueLws(p, b, answer)) && Keeping(p, OnDiscardLws(p, b, answer))
  {
    var q := p.(state := InHeader(HeaderFieldStart), msg := p.msg.(flags := Finished(p.hstate, p.msg.flags)));
    FinishedKept(p.hstate, p.msg.flags);
    KeepingFieldStart(p, q, b, answer);
    KeepingValueStart(p, p.(hstate := if p.hstate == ContentLengthNum then ContentLengthWs else p.hstate), b);
    hide OnFieldStart, OnValueStart, Finished, Before, FlagsKept;
  }

  lemma KeepingPart(p: Parser, h: HeaderPart, b: Byte, answer: Answer)
    requires p.state == InHeader(h)
    ensures Keeping(p, OnHeaderPart(p, h, b, answer))
  {
    match h {
      case HeaderFieldStart => KeepingFieldStart(p, p, b, answer);
      case HeadersAlmostDone => EndOfBlock(p, b, answer);
      case HeaderValue => KeepingValue(p, b);
      case HeaderValueLws => KeepingLws(p, b, answer);
      case HeaderValueDiscardLws => KeepingLws(p, b, answer);
      case _ => KeepingValueStart(p, p, b);
    }
    hide OnFieldStart, OnHeadersAlmostDone, OnValue, OnValueLws, OnDiscardLws, OnValueStart, FieldChar, Token;
  }

  lemma KeepingByte(p: Parser, b: Byte, answer: Answer)
    requires p.state.InHeader?
    ensures Keeping(p, OnByte(p, b, answer))
  {
    HeaderByte(p, p.state.h, b, answer);
    KeepingPart(p.(nread := p.nread + 1), p.state.h, b, answer);
    hide OnHeaderPart, OnByte, FlagsKept;
  }

  lemma KeptTwice(p: Parser, p1: Parser, p2: Parser)
    requires Kept(p, p1) && Kept(p1, p2)
    ensures Kept(p, p2)
  {
  }

  /** The rest of a header block cannot change a length that is complete, nor take the chunked flag back. */
  lemma {:induction false} BlockKeeps(p: Parser, log: seq<Event>, s: Bytes, answer: Answer)
    requires InBlock(p, s, answer)
    ensures var o := Run(p, log, s, answer); o.Going? && o.p.state.InHeader? && Kept(p, o.p)
    decreases |s|
  {
    hide OnByte, PushAll, Kept;
    if s != [] {
      var r := OnByte(p, s[0], answer);
      KeepingByte(p, s[0], answer);
      BlockKeeps(r.p, PushAll(log, r.events), s[1..], answer);
      KeptTwice(p, r.p, Run(r.p, PushAll(log, r.events), s[1..], answer).p);
    } else {
      KeptSelf(p);
    }
  }

  lemma KeptSelf(p: Parser)
    ensures Kept(p, p)
  {
  }

  // ---- Names ----

  /** The name in any case. */
  predicate Spells(s: Bytes, name: string)
  {
    |s| == |name| && forall i :: 0 <= i < |s| ==> Token(s[i]) != 0 && Token(s[i]) == name[i] as int
  }

  /** The matcher after some more characters of a name. */
  function Names(m: Matcher, s: Bytes): Matcher
    decreases |s|
  {
    if s == [] then m else Names(FieldChar(m, s[0]), s[1..])
  }

  lemma {:induction false} RunNames(q: Parser, log: seq<Event>, s: Bytes, answer: Answer)
    requires q.state == InHeader(HeaderField) && s != [] && (forall b <- s :: Token(b) != 0) && q.nread + |s| <= MAX_HEADER_SIZE
    ensures var m := Names(Matcher(q.hstate, q.index), s);
            Run(q, log, s, answer) == Going(q.(nread := q.nread + |s|, hstate := m.h, index := m.index), Push(log, Data(Field, s)))
    decreases |s|
  {
    hide OnByte, FieldChar, Token, Push, Run;
    var m := FieldChar(Matcher(q.hstate, q.index), s[0]);
    var q1 := q.(nread := q.nread + 1, hstate := m.h, index := m.index);
    FieldByte(q, s[0], answer);
    RunNote(q, log, s, q1, Data(Field, [s[0]]), answer);
    if |s| == 1 {
      assert s == [s[0]] && s[1..] == [];
      RunNone(q1, Push(log, Data(Field, [s[0]])), answer);
    } else {
      RunNames(q1, Push(log, Data(Field, [s[0]])), s[1..], answer);
      PushTwice(log, Field, [s[0]], s[1..]);
      assert [s[0]] + s[1..] == s;
    }
  }

  lemma FieldByte(q: Parser, b: Byte, answer: Answer)
    requires q.state == InHeader(HeaderField) && Token(b) != 0 && q.nread + 1 <= MAX_HEADER_SIZE
    ensures var m := FieldChar(Matcher(q.hstate, q.index), b);
            OnByte(q, b, answer) == Next(q.(nread := q.nread + 1, hstate := m.h, index := m.index), [Data(Field, [b])])
  {
    hide FieldChar, Token;
  }

  /** The state that matches the rest of a name, and what it is matched as. */
  predicate Matches(h: HState, name: string, done: HState)
  {
    (h == MatchContentLength && name == "content-length" && done == ContentLength)
    || (h == MatchTransferEncoding && name == "transfer-encoding" && done == TransferEncoding)
  }

  lemma {:induction false} NameTail(h: HState, name: string, done: HState, s: Bytes, i: nat)
    requires Matches(h, name, done) && Spells(s, name) && i < |name| - 1
    ensures Names(Matcher(h, i), s[i + 1..]) == Matcher(done, |name| - 1)
    decreases |name| - i
  {
    hide Token;
    assert s[i + 1..][0] == s[i + 1] && s[i + 1..][1..] == s[i + 2..];
    NameChar(h, name, done, i, s[i + 1]);
    if i + 1 < |name| - 1 {
      NameTail(h, name, done, s, i + 1);
    } else {
      assert s[i + 2..] == [];
    }
  }

  lemma NameChar(h: HState, name: string, done: HState, i: nat, b: Byte)
    requires Matches(h, name, done) && i < |name| - 1 && Token(b) == name[i + 1] as int
    ensures FieldChar(Matcher(h, i), b) == Matcher(if i + 1 == |name| - 1 then done else h, i + 1)
  {
    hide Token;
  }

  lemma LengthName(s: Bytes)
    requires Spells(s, "content-length")
    ensures Names(Matcher(C, 0), s[1..]) == Matcher(ContentLength, 13)
  {
    hide Token;
    assert s[1..][0] == s[1] && s[1..][1..] == s[2..] && s[2..][0] == s[2] && s[2..][1..] == s[3..] && s[3..][0] == s[3] && s[3..][1..] == s[4..];
    assert FieldChar(Matcher(C, 0), s[1]) == Matcher(CO, 1);
    assert FieldChar(Matcher(CO, 1), s[2]) == Matcher(CON, 2);
    assert FieldChar(Matcher(CON, 2), s[3]) == Matcher(MatchContentLength, 3);
    NameTail(MatchContentLength, "content-length", ContentLength, s, 3);
    hide FieldChar;
    assert Names(Matcher(CON, 2), s[3..]) == Names(Matcher(MatchContentLength, 3), s[4..]);
    assert Names(Matcher(CO, 1), s[2..]) == Names(Matcher(CON, 2), s[3..]);
  }

  /** A whole name and the colon. */
  lemma RunName(q: Parser, log: seq<Event>, s: Bytes, m0: Matcher, m: Matcher, answer: Answer)
    requires q.state == InHeader(HeaderFieldStart) && s != [] && (forall b <- s :: Token(b) != 0) && q.nread + |s| + 1 <= MAX_HEADER_SIZE
    requires OnFieldStart(q, s[0], answer) == Next(q.(state := InHeader(HeaderField), hstate := m0.h, index := m0.index), [Data(Field, [s[0]])])
    requires Names(m0, s[1..]) == m
    ensures Run(q, log, s + [58], answer) ==
            Going(q.(state := InHeader(HeaderValueDiscardWs), hstate := m.h, index := m.index, nread := q.nread + |s| + 1), Push(log, Data(Field, s)))
  {
    hide OnByte, FieldChar, Token, Push, Run, Names, OnFieldStart;
    var t := s + [58];
    var q1 := q.(state := InHeader(HeaderField), hstate := m0.h, index := m0.index, nread := q.nread + 1);
    var q2 := q1.(hstate := m.h, index := m.index, nread := q.nread + |s|);
    var log1, log2 := Push(log, Data(Field, [s[0]])), Push(log, Data(Field, s));
    StartByte(q, s[0], m0, answer);
    RunNote(q, log, t, q1, Data(Field, [s[0]]), answer);
    assert t[1..] == s[1..] + [58];
    RunSplit(q1, log1, s[1..], [58], answer);
    RunNameRest(q1, log, s, answer);
    assert [58][1..] == [];
    ColonByte(q2, answer);
    RunNext(q2, log2, [58], q2.(state := InHeader(HeaderValueDiscardWs), nread := q2.nread + 1), answer);
    RunNone(q2.(state := InHeader(HeaderValueDiscardWs), nread := q2.nread + 1), log2, answer);
  }

  /** The rest of a name after its first character. */
  lemma RunNameRest(q: Parser, log: seq<Event>, s: Bytes, answer: Answer)
    requires q.state == InHeader(HeaderField) && s != [] && (forall b <- s :: Token(b) != 0) && q.nread + |s| - 1 <= MAX_HEADER_SIZE
    ensures var m := Names(Matcher(q.hstate, q.index), s[1..]);
            Run(q, Push(log, Data(Field, [s[0]])), s[1..], answer) ==
            Going(q.(nread := q.nread + |s| - 1, hstate := m.h, index := m.index), Push(log, Data(Field, s)))
  {
    hide OnByte, FieldChar, Token, Push, Run;
    if |s| == 1 {
      RunNone(q, Push(log, Data(Field, [s[0]])), answer);
      assert s == [s[0]] && s[1..] == [];
    } else {
      RunNames(q, Push(log, Data(Field, [s[0]])), s[1..], answer);
      PushTwice(log, Field, [s[0]], s[1..]);
      assert [s[0]] + s[1..] == s;
    }
  }

  lemma StartByte(q: Parser, b: Byte, m0: Matcher, answer: Answer)
    requires q.state == InHeader(HeaderFieldStart) && q.nread + 1 <= MAX_HEADER_SIZE && Token(b) != 0
    requires OnFieldStart(q, b, answer) == Next(q.(state := InHeader(HeaderField), hstate := m0.h, index := m0.index), [Data(Field, [b])])
    ensures OnByte(q, b, answer) ==
            Next(q.(state := InHeader(HeaderField), hstate := m0.h, index := m0.index, nread := q.nread + 1), [Data(Field, [b])])
  {
    hide OnHeadersAlmostDone;
  }

  lemma ColonByte(q: Parser, answer: Answer)
    requires q.state == InHeader(HeaderField) && q.nread + 1 <= MAX_HEADER_SIZE
    ensures OnByte(q, 58, answer) == Next(q.(state := InHeader(HeaderValueDiscardWs), nread := q.nread + 1), [])
  {
  }

  predicate Blanks(s: Bytes)
  {
    forall i :: 0 <= i < |s| ==> s[i] == SP || s[i] == HT
  }

  /** Blanks before a value. */
  lemma {:induction false} RunBlanks(q: Parser, log: seq<Event>, s: Bytes, answer: Answer)
    requires q.state == InHeader(HeaderValueDiscardWs) && Blanks(s) && q.nread + |s| <= MAX_HEADER_SIZE
    ensures Run(q, log, s, answer) == Going(q.(nread := q.nread + |s|), log)
    decreases |s|
  {
    hide OnByte, Run;
    if s == [] {
      RunNone(q, log, answer);
    } else {
      BlankByte(q, s[0], answer);
      RunNext(q, log, s, q.(nread := q.nread + 1), answer);
      RunBlanks(q.(nread := q.nread + 1), log, s[1..], answer);
    }
  }

  lemma BlankByte(q: Parser, b: Byte, answer: Answer)
    requires q.state == InHeader(HeaderValueDiscardWs) && (b == SP || b == HT) && q.nread + 1 <= MAX_HEADER_SIZE
    ensures OnByte(q, b, answer) == Next(q.(nread := q.nread + 1), [])
  {
  }

  /** The end of the line of a value. */
  lemma RunLineEnd(q: Parser, log: seq<Event>, end: Bytes, answer: Answer)
    requires q.state == InHeader(HeaderValue) && LineEnds(end) && q.nread + |end| <= MAX_HEADER_SIZE
    ensures Run(q, log, end, answer) == Going(q.(state := InHeader(HeaderValueLws), nread := q.nread + |end|), log)
  {
    hide OnByte, Run;
    var q1 := q.(state := if end == [LF] then InHeader(HeaderValueLws) else InHeader(HeaderAlmostDone), nread := q.nread + 1);
    var q2 := q.(state := InHeader(HeaderValueLws), nread := q.nread + |end|);
    LineEndBytes(q, answer);
    RunNext(q, log, end, q1, answer);
    if end == [LF] {
      assert end[1..] == [];
    } else {
      assert end[1..] == [LF] && [LF][1..] == [];
      RunNext(q1, log, [LF], q2, answer);
    }
    RunNone(q2, log, answer);
  }

  lemma LineEndBytes(q: Parser, answer: Answer)
    requires q.state == InHeader(HeaderValue) && q.nread + 1 <= MAX_HEADER_SIZE
    ensures OnByte(q, CR, answer) == Next(q.(state := InHeader(HeaderAlmostDone), nread := q.nread + 1), [])
    ensures OnByte(q, LF, answer) == Next(q.(state := InHeader(HeaderValueLws), nread := q.nread + 1), [])
    ensures q.nread + 2 <= MAX_HEADER_SIZE ==>
              OnByte(q.(state := InHeader(HeaderAlmostDone), nread := q.nread + 1), LF, answer) ==
              Next(q.(state := InHeader(HeaderValueLws), nread := q.nread + 2), [])
  {
  }

  // ---- Lines ----

  /** A header line; a line ends with CR and LF or with LF alone. */
  datatype Line = Line(name: Bytes, blanks: Bytes, value: Bytes, spaces: Bytes, end: Bytes)

  predicate LineEnds(s: Bytes)
  {
    s == [CR, LF] || s == [LF]
  }

  predicate Spaces(s: Bytes)
  {
    forall i :: 0 <= i < |s| ==> s[i] == SP
  }

  predicate WellFormed(l: Line)
  {
    Blanks(l.blanks) && Spaces(l.spaces) && LineEnds(l.end)
  }

  function Text(l: Line): Bytes
  {
    l.name + [58] + (l.blanks + (l.value + (l.spaces + l.end)))
  }

  lemma TextLength(l: Line)
    requires WellFormed(l)
    ensures |Text(l)| == |l.name| + 1 + |l.blanks| + |l.value| + |l.spaces| + |l.end| && |l.end| >= 1
  {
  }

  /** A line, from what its parts lead to. */
  lemma RunLineParts(q: Parser, log: seq<Event>, l: Line, q1: Parser, answer: Answer)
    requires Run(q, log, l.name + [58], answer) == Going(q1, Push(log, Data(Field, l.name)))
    requires q1.state == InHeader(HeaderValueDiscardWs) && WellFormed(l) && q1.nread + |l.blanks| <= MAX_HEADER_SIZE
    ensures var o := Run(q1.(nread := q1.nread + |l.blanks|), Push(log, Data(Field, l.name)), l.value, answer);
            Run(q, log, Text(l), answer) == Then(o, l.spaces + l.end, answer)
  {
    hide Run, Push;
    var log1, q2, tail := Push(log, Data(Field, l.name)), q1.(nread := q1.nread + |l.blanks|), l.spaces + l.end;
    RunSplit(q, log, l.name + [58], l.blanks + (l.value + tail), answer);
    RunSplit(q1, log1, l.blanks, l.value + tail, answer);
    RunBlanks(q1, log1, l.blanks, answer);
    RunSplit(q2, log1, l.value, tail, answer);
  }

  /** The matcher after spaces that follow a length or "chunked". */
  function Spaced(h: HState, s: Bytes): HState
  {
    if s != [] && h == ContentLengthNum then ContentLengthWs else h
  }

  lemma {:induction false} RunSpaces(q: Parser, log: seq<Event>, s: Bytes, answer: Answer)
    requires q.state == InHeader(HeaderValue) && Spaces(s) && q.nread + |s| <= MAX_HEADER_SIZE
    requires q.hstate == ContentLengthNum || q.hstate == ContentLengthWs || q.hstate == ChunkedValue
    ensures var o := Run(q, log, s, answer); o.Going? && o.p == q.(hstate := Spaced(q.hstate, s), nread := q.nread + |s|)
    decreases |s|
  {
    hide OnByte, Run, Push;
    if s == [] {
      RunNone(q, log, answer);
    } else {
      var q1 := q.(hstate := Spaced(q.hstate, s), nread := q.nread + 1);
      SpaceByte(q, answer);
      RunNote(q, log, s, q1, Data(Value, [SP]), answer);
      RunSpaces(q1, Push(log, Data(Value, [SP])), s[1..], answer);
    }
  }

  lemma SpaceByte(q: Parser, answer: Answer)
    requires q.state == InHeader(HeaderValue) && q.nread + 1 <= MAX_HEADER_SIZE
    requires q.hstate == ContentLengthNum || q.hstate == ContentLengthWs || q.hstate == ChunkedValue
    ensures OnByte(q, SP, answer) == Next(q.(hstate := Spaced(q.hstate, [SP]), nread := q.nread + 1), [Data(Value, [SP])])
  {
  }

  /** What follows the value on its line. */
  lemma RunLineTail(q: Parser, log: seq<Event>, l: Line, answer: Answer)
    requires q.state == InHeader(HeaderValue) && (q.hstate == ContentLengthNum || q.hstate == ChunkedValue)
    requires WellFormed(l) && q.nread + |l.spaces| + |l.end| <= MAX_HEADER_SIZE
    ensures var o := Run(q, log, l.spaces + l.end, answer);
            o.Going? && o.p == q.(state := InHeader(HeaderValueLws), hstate := Spaced(q.hstate, l.spaces), nread := q.nread + |l.spaces| + |l.end|)
  {
    hide Run;
    RunSplit(q, log, l.spaces, l.end, answer);
    RunSpaces(q, log, l.spaces, answer);
    var o := Run(q, log, l.spaces, answer);
    RunLineEnd(o.p, o.log, l.end, answer);
  }

  /** A Content-Length line, its name in any case: the number is stored and complete, or the line is refused as too large. */
  lemma ContentLengthLine(q: Parser, log: seq<Event>, l: Line, answer: Answer)
    requires q.state == InHeader(HeaderFieldStart) && !q.msg.flags.contentLength && WellFormed(l)
    requires Spells(l.name, "content-length") && l.value != [] && forall b <- l.value :: IsNum(b)
    requires q.nread + |Text(l)| <= MAX_HEADER_SIZE
    ensures var o := Run(q, log, Text(l), answer);
            if !Fits(0, l.value, false, DEC_LIMIT) then o == Failed
            else o.Going? && o.p.state == InHeader(HeaderValueLws) && LengthFixed(o.p) && o.p.length == Number(0, l.value, false)
                 && o.p.msg == q.msg.(flags := q.msg.flags.(contentLength := true))
  {
    var m := Matcher(ContentLength, 13);
    var q1 := q.(state := InHeader(HeaderValueDiscardWs), hstate := m.h, index := m.index, nread := q.nread + |l.name| + 1);
    var log1 := Push(log, Data(Field, l.name));
    LengthName(l.name);
    StartsName(q, l.name[0], answer);
    TextLength(l);
    hide Run, Push, Names, OnFieldStart, Number, Fits, Token, WellFormed, Text, OnByte;
    assert forall b <- l.name :: Token(b) != 0;
    RunName(q, log, l.name, Matcher(C, 0), m, answer);
    RunLineParts(q, log, l, q1, answer);
    var q2 := q1.(nread := q1.nread + |l.blanks|);
    LengthHeader(q2, log1, l.value, answer);
    var o := Run(q2, log1, l.value, answer);
    if o.Going? {
      RunLineTail(o.p, o.log, l, answer);
    }
  }

  lemma StartsName(q: Parser, b: Byte, answer: Answer)
    requires Token(b) == 99 || Token(b) == 116
    ensures OnFieldStart(q, b, answer) ==
            Next(q.(state := InHeader(HeaderField), index := 0, hstate := if Token(b) == 99 then C else MatchTransferEncoding), [Data(Field, [b])])
  {
    hide OnHeadersAlmostDone;
  }

  // ---- The end of the block ----

  /** Before the empty line, or in it once its CR is read; a Content-Length line without a value is refused there. */
  predicate LineDone(p: Parser)
  {
    p.state == InHeader(HeaderFieldStart) || p.state == InHeader(HeaderValueLws) || p.state == InHeader(HeadersAlmostDone)
    || (p.state == InHeader(HeaderValueDiscardLws) && p.hstate != ContentLength)
  }

  /** The last value is finished. */
  function Closed(p: Parser): Parser
  {
    p.(state := InHeader(HeadersAlmostDone),
       msg := p.msg.(flags := if p.state == InHeader(HeaderValueLws) || p.state == InHeader(HeaderValueDiscardLws)
                              then Finished(p.hstate, p.msg.flags) else p.msg.flags))
  }

  function ClosedLog(p: Parser, log: seq<Event>): seq<Event>
  {
    if p.state == InHeader(HeaderValueDiscardLws) then Push(log, Data(Value, [])) else log
  }

  lemma ClosingByte(p: Parser, answer: Answer)
    requires LineDone(p) && p.nread < MAX_HEADER_SIZE
    ensures var r := OnByte(Closed(p), LF, answer);
            OnByte(p, LF, answer) == if p.state == InHeader(HeaderValueDiscardLws) then Before([Data(Value, [])], r) else r
  {
    hide Finished, OnHeadersDone, NewMessage, Upgrades;
  }

  /** The empty line may be LF alone. */
  lemma EmptyLine(p: Parser, log: seq<Event>, s: Bytes, answer: Answer)
    requires LineDone(p) && p.nread < MAX_HEADER_SIZE
    ensures Run(p, log, [LF] + s, answer) == Run(Closed(p), ClosedLog(p, log), [LF] + s, answer)
  {
    hide OnByte, Push, Closed, LineDone;
    ClosingByte(p, answer);
    PushAllTwo(log, Data(Value, []), OnByte(Closed(p), LF, answer));
  }

  lemma ClosedKept(p: Parser)
    ensures FlagsKept(p.msg.flags, Closed(p).msg.flags) && Closed(p).length == p.length && Closed(p).nread == p.nread
  {
    FinishedKept(p.hstate, p.msg.flags);
    hide Finished;
  }

  /**
   * A message whose header block has one Content-Length line, anything allowed before and after it:
   * its body is exactly as many bytes as the line says.
   */
  lemma SizedBlock(q: Parser, log: seq<Event>, l: Line, h: Bytes, body: Bytes, rest: Bytes)
    requires q.state == InHeader(HeaderFieldStart) && !q.msg.flags.contentLength && !q.msg.flags.trailing && !q.msg.flags.skipBody
    requires WellFormed(l) && Spells(l.name, "content-length") && l.value != [] && forall b <- l.value :: IsNum(b)
    requires q.nread + |Text(l)| <= MAX_HEADER_SIZE
    requires Fits(0, l.value, false, DEC_LIMIT) && |body| == Number(0, l.value, false)
    requires var o := Run(q, log, Text(l), ReadBody); o.Going? && InBlock(o.p, h, ReadBody)
    requires var e := Run(q, log, Text(l) + h, ReadBody);
             e.Going? && LineDone(e.p) && e.p.nread < MAX_HEADER_SIZE
             && !Closed(e.p).msg.flags.chunked && !Upgrades(Closed(e.p).msg)
    ensures var e := Run(q, log, Text(l) + h, ReadBody);
            var log1 := Push(ClosedLog(e.p, e.log), Notify(HeadersComplete));
            var log2 := if body == [] then log1 else Push(log1, Data(Body, body));
            var p := Declared(Closed(e.p)).(length := 0);
            Run(q, log, Text(l) + h + ([LF] + body + rest), ReadBody) ==
            Run(p.(state := NewMessage(p.msg, 0)), Push(log2, Notify(MessageComplete)), rest, ReadBody)
  {
    ContentLengthLine(q, log, l, ReadBody);
    FitsBelow(0, l.value);
    hide Run, Push, Text, Number, Fits, Token, InBlock, NewMessage, OnByte, WellFormed, Closed, ClosedLog, Upgrades;
    var o := Run(q, log, Text(l), ReadBody);
    RunSplit(q, log, Text(l), h, ReadBody);
    BlockKeeps(o.p, o.log, h, ReadBody);
    var e := Run(q, log, Text(l) + h, ReadBody);
    RunSplit(q, log, Text(l) + h, [LF] + body + rest, ReadBody);
    assert [LF] + body + rest == [LF] + (body + rest);
    EmptyLine(e.p, e.log, body + rest, ReadBody);
    ClosedKept(e.p);
    SizedMessage(Closed(e.p), ClosedLog(e.p, e.log), body, rest);
  }

  // ---- Chunked ----

  predicate SpellsValue(s: Bytes, name: string)
  {
    |s| == |name| && forall i :: 0 <= i < |s| ==> Lower(s[i]) == name[i] as int
  }

  const CHUNKED := "chunked"

  lemma {:induction false} ChunkedTail(q: Parser, log: seq<Event>, s: Bytes, i: nat, answer: Answer)
    requires q.state == InHeader(HeaderValue) && q.hstate == MatchChunked && q.index == i < 6 && SpellsValue(s, CHUNKED)
    requires q.nread + 7 - i <= MAX_HEADER_SIZE
    ensures Run(q, log, s[i + 1..], answer) ==
            Going(q.(hstate := ChunkedValue, index := 6, nread := q.nread + 6 - i), Push(log, Data(Value, s[i + 1..])))
    decreases 6 - i
  {
    hide Run, OnByte, Push, Lower;
    var t, b := s[i + 1..], s[i + 1];
    var q1 := q.(hstate := if i == 5 then ChunkedValue else MatchChunked, index := i + 1, nread := q.nread + 1);
    var log1 := Push(log, Data(Value, [b]));
    assert t[0] == b && t[1..] == s[i + 2..];
    ChunkedByte(q, b, answer);
    RunNote(q, log, t, q1, Data(Value, [b]), answer);
    if i == 5 {
      assert t == [b] && s[7..] == [];
      RunNone(q1, log1, answer);
    } else {
      ChunkedTail(q1, log1, s, i + 1, answer);
      PushTwice(log, Value, [b], s[i + 2..]);
      assert t == [b] + s[i + 2..];
    }
  }

  lemma ChunkedByte(q: Parser, b: Byte, answer: Answer)
    requires q.state == InHeader(HeaderValue) && q.hstate == MatchChunked && q.index < 6 && q.nread + 1 <= MAX_HEADER_SIZE
    requires Lower(b) == CHUNKED[q.index + 1] as int
    ensures OnByte(q, b, answer) ==
            Next(q.(hstate := if q.index == 5 then ChunkedValue else MatchChunked, index := q.index + 1, nread := q.nread + 1), [Data(Value, [b])])
  {
    LetterChar(b);
    hide Lower, IsHeaderChar;
  }

  lemma LetterChar(b: Byte)
    requires 97 <= Lower(b) <= 122
    ensures IsHeaderChar(b) && b != CR && b != LF && b != SP && b != HT
  {
  }

  /** A line that says that the body is chunked, in any case. */
  lemma ChunkedLine(q: Parser, log: seq<Event>, l: Line, answer: Answer)
    requires q.state == InHeader(HeaderFieldStart) && WellFormed(l)
    requires Spells(l.name, "transfer-encoding") && SpellsValue(l.value, CHUNKED) && q.nread + |Text(l)| <= MAX_HEADER_SIZE
    ensures var o := Run(q, log, Text(l), answer);
            o.Going? && o.p.state == InHeader(HeaderValueLws) && o.p.hstate == ChunkedValue && o.p.msg == q.msg
  {
    var m := Matcher(TransferEncoding, 16);
    var q1 := q.(state := InHeader(HeaderValueDiscardWs), hstate := m.h, index := m.index, nread := q.nread + |l.name| + 1);
    var log1 := Push(log, Data(Field, l.name));
    NameTail(MatchTransferEncoding, "transfer-encoding", TransferEncoding, l.name, 0);
    StartsName(q, l.name[0], answer);
    TextLength(l);
    hide Run, Push, Names, OnFieldStart, Token, OnByte, WellFormed, Text, Lower;
    assert forall b <- l.name :: Token(b) != 0;
    RunName(q, log, l.name, Matcher(MatchTransferEncoding, 0), m, answer);
    RunLineParts(q, log, l, q1, answer);
    var q2 := q1.(nread := q1.nread + |l.blanks|);
    RunChunkedValue(q2, log1, l.value, answer);
    var o := Run(q2, log1, l.value, answer);
    RunLineTail(o.p, o.log, l, answer);
  }

  lemma RunChunkedValue(q: Parser, log: seq<Event>, value: Bytes, answer: Answer)
    requires q.state == InHeader(HeaderValueDiscardWs) && q.hstate == TransferEncoding && SpellsValue(value, CHUNKED)
    requires q.nread + 8 <= MAX_HEADER_SIZE
    ensures Run(q, log, value, answer) ==
            Going(q.(state := InHeader(HeaderValue), hstate := ChunkedValue, index := 6, nread := q.nread + 7), Push(log, Data(Value, value)))
  {
    hide Run, Push, OnByte, Lower;
    var q1 := q.(state := InHeader(HeaderValue), hstate := MatchChunked, index := 0, nread := q.nread + 1);
    FirstOfChunked(q, value[0], answer);
    RunNote(q, log, value, q1, Data(Value, [value[0]]), answer);
    ChunkedTail(q1, Push(log, Data(Value, [value[0]])), value, 0, answer);
    PushTwice(log, Value, [value[0]], value[1..]);
    assert [value[0]] + value[1..] == value;
  }

  lemma FirstOfChunked(q: Parser, b: Byte, answer: Answer)
    requires q.state == InHeader(HeaderValueDiscardWs) && q.hstate == TransferEncoding && Lower(b) == 99 && q.nread + 1 <= MAX_HEADER_SIZE
    ensures OnByte(q, b, answer) ==
            Next(q.(state := InHeader(HeaderValue), hstate := MatchChunked, index := 0, nread := q.nread + 1), [Data(Value, [b])])
  {
    LetterChar(b);
    hide Lower;
  }

  /** The line is over with the first byte of the next. */
  lemma ChunkedFrom(p: Parser, b: Byte, answer: Answer)
    requires p.state == InHeader(HeaderValueLws) && p.hstate == ChunkedValue && b != SP && b != HT
    ensures var r := OnByte(p, b, answer); r.Next? && r.p.state.InHeader? ==> r.p.msg.flags.chunked
  {
    EndOfBlock(p.(nread := p.nread + 1, state := InHeader(HeaderFieldStart), msg := p.msg.(flags := p.msg.flags.(chunked := true))), b, answer);
    hide OnHeadersAlmostDone, Token, OnStatusPart, OnRequestPart, OnUrl, OnBodyPart;
  }

  /** Up to the end of the block the body stays chunked. */
  lemma ChunkedKept(p: Parser, log: seq<Event>, h: Bytes, answer: Answer)
    requires p.state == InHeader(HeaderValueLws) && p.hstate == ChunkedValue && InBlock(p, h, answer) && h != [] && h[0] != SP && h[0] != HT
    ensures var o := Run(p, log, h, answer); o.Going? && o.p.msg.flags.chunked && Kept(p, o.p)
  {
    hide OnByte, PushAll, Kept;
    var r := OnByte(p, h[0], answer);
    ChunkedFrom(p, h[0], answer);
    BlockKeeps(p, log, h, answer);
    BlockKeeps(r.p, PushAll(log, r.events), h[1..], answer);
    KeptFlags(r.p, Run(r.p, PushAll(log, r.events), h[1..], answer).p);
  }

  lemma KeptFlags(p: Parser, p': Parser)
    requires Kept(p, p')
    ensures p.msg.flags.chunked ==> p'.msg.flags.chunked
  {
  }

  /**
   * A message whose header block says that it is chunked, and gives no length: after the block its
   * chunks are read as `ChunkedMessage` says.
   */
  lemma ChunkedBlock(q: Parser, log: seq<Event>, l: Line, h: Bytes, s: Bytes)
    requires q.state == InHeader(HeaderFieldStart) && !q.msg.flags.trailing && !q.msg.flags.skipBody
    requires WellFormed(l) && Spells(l.name, "transfer-encoding") && SpellsValue(l.value, CHUNKED)
    requires q.nread + |Text(l)| <= MAX_HEADER_SIZE
    requires var o := Run(q, log, Text(l), ReadBody); o.Going? && InBlock(o.p, h, ReadBody)
    requires h != [] ==> h[0] != SP && h[0] != HT
    requires var e := Run(q, log, Text(l) + h, ReadBody);
             e.Going? && LineDone(e.p) && e.p.nread < MAX_HEADER_SIZE
             && !Closed(e.p).msg.flags.contentLength && !Upgrades(Closed(e.p).msg)
    ensures var e := Run(q, log, Text(l) + h, ReadBody);
            var c := Closed(e.p);
            Run(q, log, Text(l) + h + ([LF] + s), ReadBody) ==
            Run(c.(state := InBody(ChunkSizeStart), nread := 0, msg := c.msg.(upgrade := false)),
                Push(ClosedLog(e.p, e.log), Notify(HeadersComplete)), s, ReadBody)
  {
    ChunkedLine(q, log, l, ReadBody);
    hide Run, Push, Text, Token, InBlock, OnByte, Lower, WellFormed, ClosedLog, Upgrades;
    var o := Run(q, log, Text(l), ReadBody);
    RunSplit(q, log, Text(l), h, ReadBody);
    if h == [] {
      RunNone(o.p, o.log, ReadBody);
    } else {
      ChunkedKept(o.p, o.log, h, ReadBody);
    }
    var e := Run(q, log, Text(l) + h, ReadBody);
    var c, log1 := Closed(e.p), ClosedLog(e.p, e.log);
    var p := c.(state := InBody(ChunkSizeStart), nread := 0, msg := c.msg.(upgrade := false));
    ClosedKept(e.p);
    RunSplit(q, log, Text(l) + h, [LF] + s, ReadBody);
    EmptyLine(e.p, e.log, s, ReadBody);
    ChunksNext(c);
    RunNote(c, log1, [LF] + s, p, Notify(HeadersComplete), ReadBody);
    assert ([LF] + s)[1..] == s;
  }

  lemma ChunksNext(q: Parser)
    requires q.state == InHeader(HeadersAlmostDone) && q.nread < MAX_HEADER_SIZE
    requires !q.msg.flags.trailing && q.msg.flags.chunked && !q.msg.flags.contentLength && !q.msg.flags.skipBody && !Upgrades(q.msg)
    ensures OnByte(q, LF, ReadBody) ==
            Next(q.(state := InBody(ChunkSizeStart), nread := 0, msg := q.msg.(upgrade := false)), [Notify(HeadersComplete)])
  {
    hide NewMessage, NeedsEof;
  }
}
