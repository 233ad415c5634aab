/** Header lines and whole header blocks: what they leave behind, by their names and values alone. */
module HttpLines {
  import opened Bits
  import opened HttpMachine
  import opened HttpReach
  import opened HttpParsers
  import opened HttpFraming
  import opened HttpHeaders
  import opened HttpOptions
  import opened HttpFields

  /** Everything between the blanks and the line end. */
  function Content(l: HttpHeaders.Line): Bytes
  {
    l.value + l.spaces
  }

  predicate IsBlank(b: Byte)
  {
    b == SP || b == HT
  }

  /** A line as the parser takes it: it neither begins with a blank nor is folded. */
  predicate Proper(l: HttpHeaders.Line)
  {
    && IsName(l.name) && Blanks(l.blanks) && LineEnds(l.end)
    && (Content(l) != [] ==> ValueChars(Content(l)))
  }

  /** Any first character but a blank or a line end; the others are those the standard allows. */
  predicate ValueChars(s: Bytes)
  {
    s != [] && !IsBlank(s[0]) && s[0] != CR && s[0] != LF && HeaderChars(s[1..])
  }

  // ---- Values ----

  /** The parser in the middle of a value. */
  function Valued(q: Parser, v: ValueStep, n: nat): Parser
    requires v.ValueStep?
  {
    q.(state := InHeader(HeaderValue), hstate := v.m.h, index := v.m.index, length := v.length,
       msg := q.msg.(flags := v.flags), nread := q.nread + n)
  }

  lemma ValueByte(q: Parser, b: Byte, answer: Answer)
    requires q.state == InHeader(HeaderValue) && IsHeaderChar(b) && b != CR && b != LF && q.nread + 1 <= MAX_HEADER_SIZE
    ensures var v := ValueChar(Matcher(q.hstate, q.index), q.msg.flags, q.length, b);
            OnByte(q, b, answer) == if v.BadValue? then Rejected else Next(Valued(q, v, 1), [Data(Value, [b])])
  {
    hide ValueChar, IsHeaderChar;
  }

  lemma FirstValueByte(q: Parser, b: Byte, answer: Answer)
    requires q.state == InHeader(HeaderValueDiscardWs) && !IsBlank(b) && b != CR && b != LF && q.nread + 1 <= MAX_HEADER_SIZE
    ensures var v := ValueEntry(q.hstate, q.msg.flags, q.length, b);
            OnByte(q, b, answer) == if v.BadValue? then Rejected else Next(Valued(q, v, 1), [Data(Value, [b])])
  {
    hide ValueEntry;
  }

  /** More of a value, after `n` bytes of it. */
  lemma {:induction false} RunValues(q: Parser, log: seq<Event>, v: ValueStep, n: nat, a: Bytes, s: Bytes, answer: Answer)
    requires v.ValueStep? && a != [] && HeaderChars(s) && q.nread + n + |s| <= MAX_HEADER_SIZE
    ensures var w := Values(v, s);
            Run(Valued(q, v, n), Push(log, Data(Value, a)), s, answer) ==
            if w.BadValue? then Failed else Going(Valued(q, w, n + |s|), Push(log, Data(Value, a + s)))
    decreases |s|
  {
    hide OnByte, Run, Push, ValueChar, IsHeaderChar;
    var q1, log1 := Valued(q, v, n), Push(log, Data(Value, a));
    if s == [] {
      assert a + s == a;
      RunNone(q1, log1, answer);
    } else {
      var v1 := ValueChar(v.m, v.flags, v.length, s[0]);
      ValueByte(q1, s[0], answer);
      if v1.BadValue? {
        RunReject(q1, log1, s, answer);
      } else {
        RunNote(q1, log1, s, Valued(q, v1, n + 1), Data(Value, [s[0]]), answer);
        PushTwice(log, Value, a, [s[0]]);
        RunValues(q, log, v1, n + 1, a + [s[0]], s[1..], answer);
        assert a + [s[0]] + s[1..] == a + s;
      }
    }
  }

  /** A whole value. */
  lemma RunValue(q: Parser, log: seq<Event>, s: Bytes, answer: Answer)
    requires q.state == InHeader(HeaderValueDiscardWs) && ValueChars(s) && q.nread + |s| <= MAX_HEADER_SIZE
    ensures var v := ValueRead(q.hstate, q.msg.flags, q.length, s);
            Run(q, log, s, answer) == if v.BadValue? then Failed else Going(Valued(q, v, |s|), Push(log, Data(Value, s)))
  {
    hide OnByte, Run, Push, ValueEntry, HeaderChars;
    var v := ValueEntry(q.hstate, q.msg.flags, q.length, s[0]);
    FirstValueByte(q, s[0], answer);
    if v.BadValue? {
      RunReject(q, log, s, answer);
    } else {
      RunNote(q, log, s, Valued(q, v, 1), Data(Value, [s[0]]), answer);
      RunValues(q, log, v, 1, [s[0]], s[1..], answer);
      assert [s[0]] + s[1..] == s;
    }
  }

  // ---- Lines ----

  lemma AnyStart(q: Parser, b: Byte, answer: Answer)
    requires Token(b) != 0
    ensures OnFieldStart(q, b, answer) ==
            Next(q.(state := InHeader(HeaderField), hstate := StartState(Token(b)), index := 0), [Data(Field, [b])])
  {
    assert Token(CR) == 0 && Token(LF) == 0;
    hide OnHeadersAlmostDone, Token;
  }

  /** The parser after a name and the colon. */
  function AfterName(q: Parser, name: Bytes): Parser
    requires name != []
  {
    q.(state := InHeader(HeaderValueDiscardWs), hstate := NameRead(name).h, index := NameRead(name).index, nread := q.nread + |name| + 1)
  }

  lemma RunFieldName(q: Parser, log: seq<Event>, name: Bytes, answer: Answer)
    requires q.state == InHeader(HeaderFieldStart) && IsName(name) && q.nread + |name| + 1 <= MAX_HEADER_SIZE
    ensures Run(q, log, name + [58], answer) == Going(AfterName(q, name), Push(log, Data(Field, name)))
  {
    assert Token(name[0]) != 0 && forall b <- name :: Token(b) != 0;
    hide Run, Push, OnFieldStart, Token, Names;
    AnyStart(q, name[0], answer);
    RunName(q, log, name, Matcher(StartState(Token(name[0])), 0), NameRead(name), answer);
  }

  lemma EmptyEndBytes(q: Parser, answer: Answer)
    requires q.state == InHeader(HeaderValueDiscardWs) && q.nread + 1 <= MAX_HEADER_SIZE
    ensures OnByte(q, CR, answer) == Next(q.(state := InHeader(HeaderValueDiscardWsAlmostDone), nread := q.nread + 1), [])
    ensures OnByte(q, LF, answer) == Next(q.(state := InHeader(HeaderValueDiscardLws), nread := q.nread + 1), [])
    ensures q.nread + 2 <= MAX_HEADER_SIZE ==>
              OnByte(q.(state := InHeader(HeaderValueDiscardWsAlmostDone), nread := q.nread + 1), LF, answer) ==
              Next(q.(state := InHeader(HeaderValueDiscardLws), nread := q.nread + 2), [])
  {
  }

  /** A line without a value. */
  lemma RunEmptyValue(q: Parser, log: seq<Event>, end: Bytes, answer: Answer)
    requires q.state == InHeader(HeaderValueDiscardWs) && LineEnds(end) && q.nread + |end| <= MAX_HEADER_SIZE
    ensures Run(q, log, end, answer) == Going(q.(state := InHeader(HeaderValueDiscardLws), nread := q.nread + |end|), log)
  {
    hide OnByte, Run;
    var q1 := q.(state := InHeader(if end == [LF] then HeaderValueDiscardLws else HeaderValueDiscardWsAlmostDone), nread := q.nread + 1);
    var q2 := q.(state := InHeader(HeaderValueDiscardLws), nread := q.nread + |end|);
    EmptyEndBytes(q, answer);
    HttpFraming.RunNext(q, log, end, q1, answer);
    if end == [LF] {
      assert end[1..] == [];
    } else {
      assert end[1..] == [LF] && [LF][1..] == [];
      HttpFraming.RunNext(q1, log, [LF], q2, answer);
    }
    RunNone(q2, log, answer);
  }

  /** The parser at the end of a line: the value or what stands for none. */
  function AtLineEnd(q: Parser, c: Bytes, n: nat): Outcome
  {
    if c == [] then Going(q.(state := InHeader(HeaderValueDiscardLws), nread := q.nread + n), [])
    else
      var v := ValueRead(q.hstate, q.msg.flags, q.length, c);
      if v.BadValue? then Failed else Going(Valued(q, v, n).(state := InHeader(HeaderValueLws)), [])
  }

  function Logged(o: Outcome, log: seq<Event>): Outcome
  {
    if o.Going? then o.(log := log) else o
  }

  /** The content of a line and its end. */
  lemma RunContent(q: Parser, log: seq<Event>, c: Bytes, end: Bytes, answer: Answer)
    requires q.state == InHeader(HeaderValueDiscardWs) && LineEnds(end) && (c != [] ==> ValueChars(c)) && q.nread + |c| + |end| <= MAX_HEADER_SIZE
    ensures Run(q, log, c + end, answer) ==
            Logged(AtLineEnd(q, c, |c| + |end|), if c == [] then log else Push(log, Data(Value, c)))
  {
    hide Run, Push, ValueChars;
    if c == [] {
      assert c + end == end;
      RunEmptyValue(q, log, end, answer);
    } else {
      RunValue(q, log, c, answer);
      RunSplit(q, log, c, end, answer);
      var v := ValueRead(q.hstate, q.msg.flags, q.length, c);
      if v.ValueStep? {
        RunLineEnd(Valued(q, v, |c|), Push(log, Data(Value, c)), end, answer);
      }
    }
  }

  lemma AtLineEndMore(q: Parser, c: Bytes, m: nat, n: nat)
    ensures AtLineEnd(q.(nread := q.nread + m), c, n) == AtLineEnd(q, c, m + n)
  {
    hide ValueRead;
  }

  /** A whole line, from its name on. */
  lemma RunWholeLine(q: Parser, log: seq<Event>, l: HttpHeaders.Line, answer: Answer)
    requires q.state == InHeader(HeaderFieldStart) && Proper(l) && q.nread + |Text(l)| <= MAX_HEADER_SIZE
    ensures var c, log1 := Content(l), Push(log, Data(Field, l.name));
            var q1 := AfterName(q, l.name);
            Run(q, log, Text(l), answer) ==
            Logged(AtLineEnd(q1, c, |l.blanks| + |c| + |l.end|), if c == [] then log1 else Push(log1, Data(Value, c)))
  {
    var c, q1, log1 := Content(l), AfterName(q, l.name), Push(log, Data(Field, l.name));
    var b, rest := q1.(nread := q1.nread + |l.blanks|), c + l.end;
    hide *;
    LineParts(q, l);
    AtLineEndMore(q1, c, |l.blanks|, |rest|);
    RunFieldName(q, log, l.name, answer);
    RunSplit(q, log, l.name + [58], l.blanks + rest, answer);
    ThenGoing(q1, log1, l.blanks + rest, answer);
    RunSplit(q1, log1, l.blanks, rest, answer);
    RunBlanks(q1, log1, l.blanks, answer);
    ThenGoing(b, log1, rest, answer);
    RunContent(b, log1, c, l.end, answer);
  }

  lemma ThenGoing(p: Parser, log: seq<Event>, s: Bytes, answer: Answer)
    ensures Then(Going(p, log), s, answer) == Run(p, log, s, answer)
  {
    hide Run;
  }

  /** The bytes of a line in the order they are read. */
  lemma LineParts(q: Parser, l: HttpHeaders.Line)
    requires Proper(l)
    ensures var c, q1 := Content(l), AfterName(q, l.name);
            && Text(l) == (l.name + [58]) + (l.blanks + (c + l.end)) && |Text(l)| == |l.name| + 1 + |l.blanks| + |c| + |l.end|
            && IsName(l.name) && Blanks(l.blanks) && LineEnds(l.end) && (c != [] ==> ValueChars(c))
            && q1.state == InHeader(HeaderValueDiscardWs) && q1.nread == q.nread + |l.name| + 1
  {
    hide NameRead, IsName, ValueChars;
  }

  /** Where the next line begins, the last value finished. */
  function NextLine(p: Parser): Parser
  {
    Closed(p).(state := InHeader(HeaderFieldStart))
  }

  lemma NextLineByte(p: Parser, b: Byte, answer: Answer)
    requires (p.state == InHeader(HeaderValueLws) || p.state == InHeader(HeaderValueDiscardLws)) && !IsBlank(b)
    ensures var r := OnByte(NextLine(p), b, answer);
            OnByte(p, b, answer) ==
            if p.state == InHeader(HeaderValueLws) then r
            else if p.hstate == ContentLength then Rejected
            else Before([Data(Value, [])], r)
  {
    hide Finished, OnFieldStart;
  }

  /** The first byte after a line is read as if the line had been finished with its last. */
  lemma GoesOnNext(p: Parser, log: seq<Event>, s: Bytes, answer: Answer)
    requires (p.state == InHeader(HeaderValueLws) || p.state == InHeader(HeaderValueDiscardLws)) && s != [] && !IsBlank(s[0])
    ensures Run(p, log, s, answer) ==
            if p.state == InHeader(HeaderValueDiscardLws) && p.hstate == ContentLength then Failed
            else Run(NextLine(p), ClosedLog(p, log), s, answer)
  {
    hide OnByte, Push, Closed;
    NextLineByte(p, s[0], answer);
    PushAllTwo(log, Data(Value, []), OnByte(NextLine(p), s[0], answer));
  }

  /** The callbacks of a line. */
  function LineLog(log: seq<Event>, l: HttpHeaders.Line): seq<Event>
  {
    Push(Push(log, Data(Field, l.name)), Data(Value, Content(l)))
  }

  /** What a line means. */
  function LineMeaning(f: Flags, length: nat, l: HttpHeaders.Line): Effect
  {
    Meaning(RoleOf(l.name), f, length, Content(l))
  }

  /** The parser after a line, before the next one. */
  ghost predicate LinePassed(q: Parser, p: Parser, e: Effect, n: nat)
  {
    && e.Effect? && p.state == InHeader(HeaderFieldStart) && p.nread == q.nread + n
    && p.length == e.length && p.msg == q.msg.(flags := e.flags)
  }

  /** At the end of a line its meaning has been found. */
  ghost predicate MeaningFound(q: Parser, l: HttpHeaders.Line, n: nat, o: Outcome)
  {
    var e := LineMeaning(q.msg.flags, q.length, l);
    && (o.Failed? ==> e.Refused?) && !o.Switched?
    && (o.Going? ==>
          && (o.p.state == InHeader(HeaderValueLws) || o.p.state == InHeader(HeaderValueDiscardLws))
          && (o.p.state == InHeader(HeaderValueDiscardLws) <==> Content(l) == [])
          && if o.p.state == InHeader(HeaderValueDiscardLws) && o.p.hstate == ContentLength then e.Refused?
             else LinePassed(q, NextLine(o.p), e, |l.name| + 1 + n))
  }

  lemma LineEndMeans(q: Parser, l: HttpHeaders.Line, n: nat)
    requires Proper(l) && q.state == InHeader(HeaderFieldStart)
    ensures MeaningFound(q, l, n, AtLineEnd(AfterName(q, l.name), Content(l), n))
  {
    assert IsName(l.name) && (Content(l) != [] ==> HeaderChars(Content(l)[1..]));
    hide AtLineEnd, MeaningFound, Content, IsName, HeaderChars, Proper;
    if Content(l) == [] {
      EmptyEndMeans(q, l, n);
    } else {
      FullEndMeans(q, l, n);
    }
  }

  lemma EmptyEndMeans(q: Parser, l: HttpHeaders.Line, n: nat)
    requires IsName(l.name) && q.state == InHeader(HeaderFieldStart) && Content(l) == []
    ensures MeaningFound(q, l, n, AtLineEnd(AfterName(q, l.name), Content(l), n))
  {
    hide RoleOf, NameRead, Meaning, Content, IsName;
    NameRecognised(l.name);
    EmptyMeans(RoleOf(l.name), q.msg.flags, q.length);
  }

  lemma FullEndMeans(q: Parser, l: HttpHeaders.Line, n: nat)
    requires IsName(l.name) && q.state == InHeader(HeaderFieldStart) && Content(l) != [] && HeaderChars(Content(l)[1..])
    ensures MeaningFound(q, l, n, AtLineEnd(AfterName(q, l.name), Content(l), n))
  {
    FieldMeans(l.name, q.msg.flags, q.length, Content(l));
    hide RoleOf, NameRead, Meaning, Content, ValueRead, Finished, IsName, HeaderChars;
  }

  /** An empty value means nothing, and is no length. */
  lemma EmptyMeans(role: Role, f: Flags, length: nat)
    ensures Meaning(role, f, length, []) == if role == LengthRole then Refused else Effect(f, length)
  {
    assert Options([], First) == {} by {
      var s: Bytes := [];
      assert FirstComma(s) == 0 && s[..0] == [];
      assert forall w: Word :: !Says([], w);
    }
    NotedTwice(f, {}, {});
  }

  /** A line with what follows it. */
  lemma RunLine(q: Parser, log: seq<Event>, l: HttpHeaders.Line, t: Bytes, answer: Answer) returns (p: Parser)
    requires q.state == InHeader(HeaderFieldStart) && Proper(l) && q.nread + |Text(l)| <= MAX_HEADER_SIZE && t != [] && !IsBlank(t[0])
    ensures var e := LineMeaning(q.msg.flags, q.length, l);
            if e.Refused? then Run(q, log, Text(l) + t, answer) == Failed
            else LinePassed(q, p, e, |Text(l)|) && Run(q, log, Text(l) + t, answer) == Run(p, LineLog(log, l), t, answer)
  {
    var c := Content(l);
    var n := |l.blanks| + |c| + |l.end|;
    assert |Text(l)| == |l.name| + 1 + n;
    hide Run, Push, LineMeaning, Content, Proper, AtLineEnd, AfterName, NextLine, ClosedLog, LinePassed, Text;
    RunWholeLine(q, log, l, answer);
    RunSplit(q, log, Text(l), t, answer);
    LineEndMeans(q, l, n);
    var o := Run(q, log, Text(l), answer);
    p := q;
    if o.Going? {
      GoesOnNext(o.p, o.log, t, answer);
      LineLogged(o.p, o.log);
      p := NextLine(o.p);
    }
  }

  lemma LineLogged(p: Parser, log: seq<Event>)
    ensures ClosedLog(p, log) == if p.state == InHeader(HeaderValueDiscardLws) then Push(log, Data(Value, [])) else log
  {
  }

  // ---- Lines that are refused ----

  /** A name with a character that is no token character, before the colon. */
  lemma BadName(q: Parser, log: seq<Event>, s: Bytes, b: Byte, t: Bytes, answer: Answer)
    requires q.state == InHeader(HeaderFieldStart) && IsName(s) && Token(b) == 0 && b != 58
    ensures Run(q, log, s + [b] + t, answer) == Failed
  {
    assert s + [b] + t == s + ([b] + t) && Token(s[0]) != 0;
    hide Run, OnByte, Push, Token;
    RunSplit(q, log, s, [b] + t, answer);
    var o := Run(q, log, s, answer);
    NameState(q, log, s, answer);
    if o.Going? {
      BadNameByte(o.p, b, answer);
      HttpFraming.RunReject(o.p, o.log, [b] + t, answer);
    }
  }

  lemma BadNameByte(p: Parser, b: Byte, answer: Answer)
    requires p.state == InHeader(HeaderField) && Token(b) == 0 && b != 58
    ensures OnByte(p, b, answer).Rejected?
  {
    hide Token;
  }

  /** Token characters leave the parser in a name, or are too many. */
  lemma {:induction false} NameState(q: Parser, log: seq<Event>, s: Bytes, answer: Answer)
    requires (q.state == InHeader(HeaderFieldStart) || q.state == InHeader(HeaderField)) && IsName(s)
    ensures var o := Run(q, log, s, answer); o == Failed || (o.Going? && o.p.state == InHeader(HeaderField))
    decreases |s|
  {
    hide OnByte, PushAll, Token;
    NameStateByte(q, s[0], answer);
    var r := OnByte(q, s[0], answer);
    if r.Next? {
      if |s| == 1 {
        assert s[1..] == [];
      } else {
        NameState(r.p, PushAll(log, r.events), s[1..], answer);
      }
    }
  }

  lemma NameStateByte(q: Parser, b: Byte, answer: Answer)
    requires (q.state == InHeader(HeaderFieldStart) || q.state == InHeader(HeaderField)) && Token(b) != 0
    ensures var r := OnByte(q, b, answer); r.Rejected? || (r.Next? && r.p.state == InHeader(HeaderField))
  {
    assert Token(CR) == 0 && Token(LF) == 0;
    hide Token, OnHeadersAlmostDone, FieldChar;
  }

  /** A value with a control character after its first character. */
  lemma BadValue(q: Parser, log: seq<Event>, s: Bytes, b: Byte, t: Bytes, answer: Answer)
    requires q.state == InHeader(HeaderValueDiscardWs) && ValueChars(s) && !IsHeaderChar(b) && q.nread + |s| <= MAX_HEADER_SIZE
    ensures Run(q, log, s + [b] + t, answer) == Failed
  {
    assert s + [b] + t == s + ([b] + t);
    hide Run, OnByte, Push, IsHeaderChar, ValueRead;
    RunSplit(q, log, s, [b] + t, answer);
    RunValue(q, log, s, answer);
    var o := Run(q, log, s, answer);
    if o.Going? {
      BadValueByte(o.p, b, answer);
      HttpFraming.RunReject(o.p, o.log, [b] + t, answer);
    }
  }

  lemma BadValueByte(p: Parser, b: Byte, answer: Answer)
    requires p.state == InHeader(HeaderValue) && !IsHeaderChar(b)
    ensures OnByte(p, b, answer).Rejected?
  {
    assert IsHeaderChar(CR) && IsHeaderChar(LF);
    hide ValueChar, IsHeaderChar;
  }

  // ---- Blocks ----

  type Block = seq<HttpHeaders.Line>

  function Lines(ls: Block): Bytes
  {
    if ls == [] then [] else Text(ls[0]) + Lines(ls[1..])
  }

  predicate AllProper(ls: Block)
  {
    forall i :: 0 <= i < |ls| ==> Proper(ls[i])
  }

  function BlockLog(log: seq<Event>, ls: Block): seq<Event>
    decreases |ls|
  {
    if ls == [] then log else BlockLog(LineLog(log, ls[0]), ls[1..])
  }

  /** What a block leaves behind, line by line. */
  function BlockMeaning(f: Flags, length: nat, ls: Block): Effect
    decreases |ls|
  {
    if ls == [] then Effect(f, length)
    else
      var e := LineMeaning(f, length, ls[0]);
      if e.Refused? then e else BlockMeaning(e.flags, e.length, ls[1..])
  }

  /** A block is read as its lines say, or refused. */
  lemma {:induction false} RunBlock(q: Parser, log: seq<Event>, ls: Block, t: Bytes, answer: Answer) returns (p: Parser)
    requires q.state == InHeader(HeaderFieldStart) && AllProper(ls) && q.nread + |Lines(ls)| <= MAX_HEADER_SIZE && t != [] && !IsBlank(t[0])
    ensures var e := BlockMeaning(q.msg.flags, q.length, ls);
            if e.Refused? then Run(q, log, Lines(ls) + t, answer) == Failed
            else LinePassed(q, p, e, |Lines(ls)|) && Run(q, log, Lines(ls) + t, answer) == Run(p, BlockLog(log, ls), t, answer)
    decreases |ls|
  {
    hide Run, LineMeaning, Text, Proper, LineLog, IsBlank;
    p := q;
    if ls == [] {
      assert Lines(ls) + t == t;
    } else {
      var rest := Lines(ls[1..]) + t;
      assert Lines(ls) + t == Text(ls[0]) + rest;
      RestStarts(ls[1..], t);
      var p1 := RunLine(q, log, ls[0], rest, answer);
      p := p1;
      if LineMeaning(q.msg.flags, q.length, ls[0]).Effect? {
        p := RunBlock(p1, LineLog(log, ls[0]), ls[1..], t, answer);
      }
    }
  }

  /** No line begins with a blank. */
  lemma RestStarts(ls: Block, t: Bytes)
    requires AllProper(ls) && t != [] && !IsBlank(t[0])
    ensures Lines(ls) + t != [] && !IsBlank((Lines(ls) + t)[0])
  {
    if ls != [] {
      var l := ls[0];
      assert Token(l.name[0]) != 0 && Token(SP) == 0 && Token(HT) == 0;
      assert (Lines(ls) + t)[0] == l.name[0];
    }
  }

  // ---- What a block says, line by line ----

  /** Some Connection line has the option, where the parser listens. */
  ghost predicate SaysOption(ls: Block, w: Word)
  {
    exists i :: 0 <= i < |ls| && OptionLine(ls[i], w)
  }

  predicate OptionLine(l: HttpHeaders.Line, w: Word)
  {
    RoleOf(l.name) == ConnectionRole && w in Options(Content(l), First)
  }

  predicate UpgradeLine(l: HttpHeaders.Line)
  {
    RoleOf(l.name) == UpgradeRole && Content(l) != []
  }

  predicate ChunkedLine(l: HttpHeaders.Line)
  {
    RoleOf(l.name) == EncodingRole && SaysChunked(Content(l))
  }

  predicate LengthLine(l: HttpHeaders.Line)
  {
    RoleOf(l.name) == LengthRole
  }

  predicate WantsUpgrade(ls: Block)
  {
    exists i :: 0 <= i < |ls| && UpgradeLine(ls[i])
  }

  predicate SaysChunks(ls: Block)
  {
    exists i :: 0 <= i < |ls| && ChunkedLine(ls[i])
  }

  /** A flag is on after the first line or through the others. */
  lemma ExistsFirst(ls: Block, w: Word)
    requires ls != []
    ensures SaysOption(ls, w) <==> OptionLine(ls[0], w) || SaysOption(ls[1..], w)
    ensures WantsUpgrade(ls) <==> UpgradeLine(ls[0]) || WantsUpgrade(ls[1..])
    ensures SaysChunks(ls) <==> ChunkedLine(ls[0]) || SaysChunks(ls[1..])
  {
    hide OptionLine, UpgradeLine, ChunkedLine;
    var t := ls[1..];
    assert forall i :: 0 < i < |ls| ==> ls[i] == t[i - 1];
    assert forall i :: 0 <= i < |t| ==> t[i] == ls[i + 1];
  }

  /** How many lines give a length. */
  function Lengths(ls: Block): nat
  {
    if ls == [] then 0 else (if LengthLine(ls[0]) then 1 else 0) + Lengths(ls[1..])
  }

  /** The length lines are numbers that are not too large. */
  predicate GoodLengths(ls: Block)
  {
    forall i :: 0 <= i < |ls| && LengthLine(ls[i]) ==> SaysLength(Content(ls[i]))
  }

  /** The number in the length line. */
  function LengthSaid(ls: Block): nat
  {
    if ls == [] then 0
    else if LengthLine(ls[0]) then Number(0, Content(ls[0])[..DigitRun(Content(ls[0]))], false)
    else LengthSaid(ls[1..])
  }

  /** One line. */
  lemma LineSays(f: Flags, length: nat, l: HttpHeaders.Line)
    ensures var e := LineMeaning(f, length, l);
            && (e.Refused? <==> LengthLine(l) && (f.contentLength || !SaysLength(Content(l))))
            && (e.Effect? ==>
                  && e.flags == Flags(f.chunked || ChunkedLine(l), f.keepAlive || OptionLine(l, KeepAlive), f.close || OptionLine(l, Close),
                                      f.connUpgrade || OptionLine(l, ConnUpgrade), f.trailing, f.upgrade || UpgradeLine(l),
                                      f.skipBody, f.contentLength || LengthLine(l))
                  && e.length == if LengthLine(l) then Number(0, Content(l)[..DigitRun(Content(l))], false) else length)
  {
    hide RoleOf, Options, SaysChunked, SaysLength, Content, Number;
  }

  /**
   * A block sets exactly the flags its lines call for, whatever their order; it is refused if and only if
   * it has two lengths or one that is no number or too large.
   */
  lemma {:induction false} BlockSays(f: Flags, length: nat, ls: Block)
    ensures var e := BlockMeaning(f, length, ls);
            && (e.Refused? <==> !GoodLengths(ls) || Lengths(ls) + (if f.contentLength then 1 else 0) > 1)
            && (e.Effect? ==>
                  && e.flags == Flags(f.chunked || SaysChunks(ls), f.keepAlive || SaysOption(ls, KeepAlive), f.close || SaysOption(ls, Close),
                                      f.connUpgrade || SaysOption(ls, ConnUpgrade), f.trailing, f.upgrade || WantsUpgrade(ls),
                                      f.skipBody, f.contentLength || Lengths(ls) > 0)
                  && e.length == if Lengths(ls) > 0 then LengthSaid(ls) else length)
    decreases |ls|
  {
    hide *;
    if ls == [] {
      NothingSays(f, length);
    } else {
      LineSays(f, length, ls[0]);
      ExistsFirst(ls, KeepAlive);
      ExistsFirst(ls, Close);
      ExistsFirst(ls, ConnUpgrade);
      GoodFirst(ls);
      LengthsFirst(ls);
      BlockFirst(f, length, ls);
      var e := LineMeaning(f, length, ls[0]);
      if e.Effect? {
        BlockSays(e.flags, e.length, ls[1..]);
      }
    }
  }

  lemma NothingSays(f: Flags, length: nat)
    ensures BlockMeaning(f, length, []) == Effect(f, length) && GoodLengths([]) && Lengths([]) == 0
    ensures (forall w: Word :: !SaysOption([], w)) && !WantsUpgrade([]) && !SaysChunks([])
  {
  }

  lemma BlockFirst(f: Flags, length: nat, ls: Block)
    requires ls != []
    ensures BlockMeaning(f, length, ls) ==
            var e := LineMeaning(f, length, ls[0]); if e.Refused? then e else BlockMeaning(e.flags, e.length, ls[1..])
  {
    hide LineMeaning;
  }

  lemma LengthsFirst(ls: Block)
    requires ls != []
    ensures Lengths(ls) == (if LengthLine(ls[0]) then 1 else 0) + Lengths(ls[1..])
    ensures LengthSaid(ls) == if LengthLine(ls[0]) then Number(0, Content(ls[0])[..DigitRun(Content(ls[0]))], false) else LengthSaid(ls[1..])
  {
    hide LengthLine, Number, Content;
  }

  lemma GoodFirst(ls: Block)
    requires ls != []
    ensures GoodLengths(ls) <==> (LengthLine(ls[0]) ==> SaysLength(Content(ls[0]))) && GoodLengths(ls[1..])
  {
    hide LengthLine, SaysLength, Content;
    var t := ls[1..];
    assert forall i :: 0 < i < |ls| ==> ls[i] == t[i - 1];
    assert forall i :: 0 <= i < |t| ==> t[i] == ls[i + 1];
  }
}
