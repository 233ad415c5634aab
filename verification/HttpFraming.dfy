/** Where the body of a message begins and ends: sections 3.3.3 and 4.1 of RFC 7230. */
module HttpFraming {
  import opened Bits
  import opened HttpMachine
  import opened HttpParsers

  // ---- Lengths ----

  /** The number a run of decimal or hexadecimal digits denotes, going on from `n`. */
  function Number(n: nat, s: Bytes, hex: bool): nat
    decreases |s|
  {
    if s == [] then n else Number(Times(n, hex) + Digit(s[0]), s[1..], hex)
  }

  function Times(n: nat, hex: bool): nat
  {
    if hex then 16 * n else 10 * n
  }

  function Digit(b: Byte): nat
  {
    if Unhex(b) == -1 then 0 else Unhex(b)
  }

  /** Every number on the way but the last is at most `limit`. */
  predicate Fits(n: nat, s: Bytes, hex: bool, limit: nat)
    decreases |s|
  {
    s == [] || (n <= limit && Fits(Times(n, hex) + Digit(s[0]), s[1..], hex, limit))
  }

  lemma {:induction false} NumberGrows(n: nat, s: Bytes, hex: bool)
    ensures n <= Number(n, s, hex)
    decreases |s|
  {
    if s != [] {
      assert Times(n, hex) >= n;
      NumberGrows(Times(n, hex) + Digit(s[0]), s[1..], hex);
    }
  }

  /** The guard of the parser looks at all digits but the last. */
  lemma {:induction false} FitsExact(n: nat, s: Bytes, hex: bool, limit: nat)
    requires s != []
    ensures Fits(n, s, hex, limit) <==> Number(n, s[..|s| - 1], hex) <= limit
    decreases |s|
  {
    var n1 := Times(n, hex) + Digit(s[0]);
    if |s| == 1 {
      assert s[..0] == [] && s[1..] == [];
    } else {
      assert s[..|s| - 1][0] == s[0] && s[..|s| - 1][1..] == s[1..][..|s| - 2];
      FitsExact(n1, s[1..], hex, limit);
      if n > limit {
        assert Times(n, hex) >= n;
        NumberGrows(n1, s[1..][..|s| - 2], hex);
      }
    }
  }

  lemma {:induction false} NumberLast(n: nat, s: Bytes, hex: bool)
    requires s != []
    ensures Number(n, s, hex) == Times(Number(n, s[..|s| - 1], hex), hex) + Digit(s[|s| - 1])
    decreases |s|
  {
    if |s| == 1 {
      assert s[..0] == [] && s[1..] == [];
    } else {
      assert s[..|s| - 1][0] == s[0] && s[..|s| - 1][1..] == s[1..][..|s| - 2];
      NumberLast(Times(n, hex) + Digit(s[0]), s[1..], hex);
    }
  }

  const DEC_LIMIT: nat := (ULLONG_MAX - 10) / 10
  const HEX_LIMIT: nat := (ULLONG_MAX - 16) / 16

  /** A length the parser accepts is below the value that stands for no length, and so never wraps. */
  lemma FitsBelow(n: nat, s: Bytes)
    requires s != []
    ensures Fits(n, s, false, DEC_LIMIT) && (forall b <- s :: IsNum(b)) ==> Number(n, s, false) < ULLONG_MAX
    ensures Fits(n, s, true, HEX_LIMIT) ==> Number(n, s, true) < ULLONG_MAX
  {
    FitsExact(n, s, false, DEC_LIMIT);
    FitsExact(n, s, true, HEX_LIMIT);
    NumberLast(n, s, false);
    NumberLast(n, s, true);
  }

  /** Further digits of Content-Length: the exact number is stored, or the header is refused because it is too large. */
  lemma {:induction false} LengthDigits(q: Parser, log: seq<Event>, s: Bytes, answer: Answer)
    requires q.state == InHeader(HeaderValue) && q.hstate == ContentLengthNum && q.nread + |s| <= MAX_HEADER_SIZE
    requires s != [] && forall b <- s :: IsNum(b)
    ensures Run(q, log, s, answer) ==
            if Fits(q.length, s, false, DEC_LIMIT)
            then Going(q.(nread := q.nread + |s|, length := Number(q.length, s, false)), Push(log, Data(Value, s)))
            else Failed
    decreases |s|
  {
    hide Push, IsHeaderChar, OnByte;
    var log1 := Push(log, Data(Value, [s[0]]));
    var q1 := q.(nread := q.nread + 1, length := q.length * 10 + Digit(s[0]));
    DigitByte(q, s[0], answer);
    PushAllOne(log, Data(Value, [s[0]]));
    if q.length <= DEC_LIMIT {
      assert Run(q, log, s, answer) == Run(q1, log1, s[1..], answer);
      if |s| > 1 {
        LengthDigits(q1, log1, s[1..], answer);
        PushTwice(log, Value, [s[0]], s[1..]);
        assert [s[0]] + s[1..] == s;
      } else {
        assert s == [s[0]];
      }
    }
  }

  lemma DigitByte(q: Parser, b: Byte, answer: Answer)
    requires q.state == InHeader(HeaderValue) && q.hstate == ContentLengthNum && q.nread + 1 <= MAX_HEADER_SIZE && IsNum(b)
    ensures OnByte(q, b, answer) ==
            if q.length <= DEC_LIMIT
            then Next(q.(nread := q.nread + 1, length := q.length * 10 + Digit(b)), [Data(Value, [b])])
            else Rejected
  {
  }

  // ---- Chunks, by their lengths ----

  /** How many bytes are hexadecimal digits before the first that is not. */
  function HexRun(s: Bytes): (n: nat)
    ensures n <= |s| && (forall i :: 0 <= i < n ==> Unhex(s[i]) != -1) && (n < |s| ==> Unhex(s[n]) == -1)
  {
    if s == [] || Unhex(s[0]) == -1 then 0 else 1 + HexRun(s[1..])
  }

  /** Where the first CR is, or the length. */
  function FirstCr(s: Bytes): (n: nat)
    ensures n <= |s| && (forall i :: 0 <= i < n ==> s[i] != CR) && (n < |s| ==> s[n] == CR)
  {
    if s == [] || s[0] == CR then 0 else 1 + FirstCr(s[1..])
  }

  /** What a chunked body begins with: a malformed chunk, too little to tell, the last chunk's line or a chunk. */
  datatype First = Bad | Partial | Last(used: nat) | Piece(data: Bytes, used: nat)

  /** The line of a chunk: its size and its length. */
  datatype Line = BadLine | PartialLine | Line(size: nat, used: nat)

  /** A line: hexadecimal digits, perhaps parameters after a semicolon or a space, CR and LF. */
  function ReadLine(s: Bytes): (r: Line)
    ensures r.Line? ==> 0 < r.used <= |s|
  {
    var k := HexRun(s);
    var e := k + FirstCr(s[k..]);
    if s == [] then PartialLine
    else if k == 0 || !Fits(0, s[..k], true, HEX_LIMIT) || (e > k && s[k] != 59 && s[k] != SP) then BadLine
    else if (if |s| < e + 2 then |s| else e + 2) > MAX_HEADER_SIZE then BadLine
    else if |s| < e + 2 then PartialLine
    else if s[e + 1] != LF then BadLine
    else Line(Number(0, s[..k], true), e + 2)
  }

  function FirstChunk(s: Bytes): (r: First)
    ensures r.Last? || r.Piece? ==> 0 < r.used <= |s|
  {
    var l := ReadLine(s);
    if l.BadLine? then Bad
    else if l.PartialLine? then Partial
    else if l.size == 0 then Last(l.used)
    else
      var e := l.used + l.size;
      if |s| <= e then Partial
      else if s[e] != CR then Bad
      else if |s| == e + 1 then Partial
      else if s[e + 1] != LF then Bad
      else Piece(s[l.used..e], e + 2)
  }

  // ---- The parser finds the same chunks ----

  lemma HexByte(q: Parser, b: Byte, answer: Answer)
    requires Unhex(b) != -1 && q.nread + 1 <= MAX_HEADER_SIZE
    ensures q.state == InBody(ChunkSize) ==>
              OnByte(q, b, answer) == if q.length <= HEX_LIMIT then Next(q.(nread := q.nread + 1, length := q.length * 16 + Unhex(b)), []) else Rejected
    ensures q.state == InBody(ChunkSizeStart) ==>
              OnByte(q, b, answer) == Next(q.(nread := q.nread + 1, length := Unhex(b), state := InBody(ChunkSize)), [])
  {
  }

  lemma TooLong(q: Parser, log: seq<Event>, s: Bytes, answer: Answer)
    requires ParsingHeader(q.state) && s != [] && q.nread + 1 > MAX_HEADER_SIZE
    ensures Run(q, log, s, answer) == Failed
  {
  }

  lemma RunNext(q: Parser, log: seq<Event>, s: Bytes, q1: Parser, answer: Answer)
    requires s != [] && OnByte(q, s[0], answer) == Next(q1, [])
    ensures Run(q, log, s, answer) == Run(q1, log, s[1..], answer)
  {
    hide OnByte;
    PushAllNone(log);
  }

  lemma RunNote(q: Parser, log: seq<Event>, s: Bytes, q1: Parser, e: Event, answer: Answer)
    requires s != [] && OnByte(q, s[0], answer) == Next(q1, [e])
    ensures Run(q, log, s, answer) == Run(q1, Push(log, e), s[1..], answer)
  {
    hide OnByte, Push;
    PushAllOne(log, e);
  }

  lemma RunReject(q: Parser, log: seq<Event>, s: Bytes, answer: Answer)
    requires s != [] && OnByte(q, s[0], answer).Rejected?
    ensures Run(q, log, s, answer) == Failed
  {
    hide OnByte;
  }

  lemma {:induction false} RunHex(q: Parser, log: seq<Event>, s: Bytes, n: nat, answer: Answer)
    requires q.state == InBody(ChunkSize) && q.nread <= MAX_HEADER_SIZE
    requires n <= |s| && forall i :: 0 <= i < n ==> Unhex(s[i]) != -1
    ensures Run(q, log, s, answer) ==
            if q.nread + n > MAX_HEADER_SIZE || !Fits(q.length, s[..n], true, HEX_LIMIT) then Failed
            else Run(q.(nread := q.nread + n, length := Number(q.length, s[..n], true)), log, s[n..], answer)
    decreases n
  {
    hide Run, OnByte, Unhex;
    if n > 0 {
      var q1 := q.(nread := q.nread + 1, length := Times(q.length, true) + Digit(s[0]));
      assert s[..n][0] == s[0] && s[..n][1..] == s[1..][..n - 1] && s[1..][n - 1..] == s[n..];
      if q.nread + 1 > MAX_HEADER_SIZE {
        TooLong(q, log, s, answer);
      } else {
        HexByte(q, s[0], answer);
        if q.length > HEX_LIMIT {
          RunReject(q, log, s, answer);
        } else {
          RunNext(q, log, s, q1, answer);
          RunHex(q1, log, s[1..], n - 1, answer);
        }
      }
    } else {
      assert s[..0] == [] && s[0..] == s;
    }
  }

  /** The digits of a chunk size, the first of them included. */
  lemma RunSize(q: Parser, log: seq<Event>, s: Bytes, n: nat, answer: Answer)
    requires q.state == InBody(ChunkSizeStart) && q.nread == 0
    requires 0 < n <= |s| && forall i :: 0 <= i < n ==> Unhex(s[i]) != -1
    ensures Run(q, log, s, answer) ==
            if n > MAX_HEADER_SIZE || !Fits(0, s[..n], true, HEX_LIMIT) then Failed
            else Run(q.(state := InBody(ChunkSize), nread := n, length := Number(0, s[..n], true)), log, s[n..], answer)
  {
    hide Run, OnByte, Unhex;
    var q1 := q.(nread := 1, length := Unhex(s[0]), state := InBody(ChunkSize));
    HexByte(q, s[0], answer);
    RunNext(q, log, s, q1, answer);
    RunHex(q1, log, s[1..], n - 1, answer);
    assert s[..n][0] == s[0] && s[..n][1..] == s[1..][..n - 1] && s[1..][n - 1..] == s[n..];
  }

  lemma ParameterByte(q: Parser, b: Byte, answer: Answer)
    requires q.nread + 1 <= MAX_HEADER_SIZE
    ensures q.state == InBody(ChunkParameters) ==>
              OnByte(q, b, answer) == Next(q.(nread := q.nread + 1, state := if b == CR then InBody(ChunkSizeAlmostDone) else q.state), [])
    ensures q.state == InBody(ChunkSize) && (b == CR || Unhex(b) == -1) ==>
              OnByte(q, b, answer) == if b == CR then Next(q.(nread := q.nread + 1, state := InBody(ChunkSizeAlmostDone)), [])
                                    else if b == 59 || b == SP then Next(q.(nread := q.nread + 1, state := InBody(ChunkParameters)), [])
                                    else Rejected
  {
  }

  /** The parameters of a chunk, up to the CR or the end of the input. */
  lemma {:induction false} RunParameters(q: Parser, log: seq<Event>, s: Bytes, answer: Answer)
    requires q.state == InBody(ChunkParameters) && q.nread <= MAX_HEADER_SIZE
    ensures var n := FirstCr(s);
            Run(q, log, s, answer) ==
            if n < |s| then
              if q.nread + n + 1 > MAX_HEADER_SIZE then Failed
              else Run(q.(nread := q.nread + n + 1, state := InBody(ChunkSizeAlmostDone)), log, s[n + 1..], answer)
            else if q.nread + n > MAX_HEADER_SIZE then Failed
            else Going(q.(nread := q.nread + n), log)
    decreases |s|
  {
    hide Run, OnByte;
    if s == [] {
      RunNone(q, log, answer);
    } else if q.nread + 1 > MAX_HEADER_SIZE {
      TooLong(q, log, s, answer);
    } else {
      var q1 := q.(nread := q.nread + 1, state := if s[0] == CR then InBody(ChunkSizeAlmostDone) else q.state);
      ParameterByte(q, s[0], answer);
      RunNext(q, log, s, q1, answer);
      if s[0] != CR {
        RunParameters(q1, log, s[1..], answer);
        assert FirstCr(s) < |s| ==> s[1..][FirstCr(s)..] == s[FirstCr(s) + 1..];
      }
    }
  }

  /** What follows the digits of a chunk size on its line. */
  lemma RunLineRest(q: Parser, log: seq<Event>, s: Bytes, answer: Answer)
    requires q.state == InBody(ChunkSize) && q.nread <= MAX_HEADER_SIZE && (s != [] ==> Unhex(s[0]) == -1)
    ensures var e, o := FirstCr(s), Run(q, log, s, answer);
            if e > 0 && s[0] != 59 && s[0] != SP then o == Failed
            else if (if e < |s| then q.nread + e + 1 else q.nread + |s|) > MAX_HEADER_SIZE then o == Failed
            else if e == |s| then o.Going?
            else o == Run(q.(nread := q.nread + e + 1, state := InBody(ChunkSizeAlmostDone)), log, s[e + 1..], answer)
  {
    hide Run, OnByte, Unhex;
    if s == [] {
      RunNone(q, log, answer);
      return;
    }
    assert FirstCr(s) == if s[0] == CR then 0 else 1 + FirstCr(s[1..]);
    hide FirstCr;
    if q.nread + 1 > MAX_HEADER_SIZE {
      TooLong(q, log, s, answer);
    } else {
      ParameterByte(q, s[0], answer);
      if s[0] == CR {
        RunNext(q, log, s, q.(nread := q.nread + 1, state := InBody(ChunkSizeAlmostDone)), answer);
      } else if s[0] == 59 || s[0] == SP {
        var q1 := q.(nread := q.nread + 1, state := InBody(ChunkParameters));
        RunNext(q, log, s, q1, answer);
        RunParameters(q1, log, s[1..], answer);
        assert FirstCr(s) < |s| ==> s[1..][FirstCr(s)..] == s[FirstCr(s) + 1..];
      } else {
        RunReject(q, log, s, answer);
      }
    }
  }

  /** The parser after the line of a chunk. */
  function AfterLine(q: Parser, size: nat): Parser
  {
    if size == 0 then q.(nread := 0, length := 0, state := InHeader(HeaderFieldStart), msg := q.msg.(flags := q.msg.flags.(trailing := true)))
    else q.(nread := 0, length := size, state := InBody(ChunkData))
  }

  lemma LineFeed(q: Parser, b: Byte, answer: Answer)
    requires q.state == InBody(ChunkSizeAlmostDone)
    ensures OnByte(q, b, answer) ==
            if b != LF || q.nread + 1 > MAX_HEADER_SIZE then HttpMachine.Rejected
            else Next(AfterLine(q, q.length), [Notify(ChunkHeader(q.length))])
  {
  }

  /** The line of a chunk is read as `ReadLine` reads it. */
  lemma RunLine(q: Parser, log: seq<Event>, s: Bytes, answer: Answer)
    requires q.state == InBody(ChunkSizeStart) && q.nread == 0
    ensures var l, o := ReadLine(s), Run(q, log, s, answer);
            && (l.BadLine? ==> o == Failed)
            && (l.PartialLine? ==> o.Going?)
            && (l.Line? ==> o == Run(AfterLine(q, l.size), Push(log, Notify(ChunkHeader(l.size))), s[l.used..], answer))
  {
    hide Run, OnByte, Unhex, Push, Fits, Number;
    var k := HexRun(s);
    if s == [] {
      RunNone(q, log, answer);
    } else if k == 0 {
      NoDigit(q, s[0], answer);
      RunReject(q, log, s, answer);
    } else {
      RunSize(q, log, s, k, answer);
      var e := k + FirstCr(s[k..]);
      if k <= MAX_HEADER_SIZE && Fits(0, s[..k], true, HEX_LIMIT) {
        var q1 := q.(state := InBody(ChunkSize), nread := k, length := Number(0, s[..k], true));
        RunLineRest(q1, log, s[k..], answer);
        if e < |s| && (e == k || s[k] == 59 || s[k] == SP) && e + 1 <= MAX_HEADER_SIZE {
          var q2 := q1.(nread := e + 1, state := InBody(ChunkSizeAlmostDone));
          assert s[k..][e - k + 1..] == s[e + 1..];
          RunLineFeed(q2, log, s[e + 1..], answer);
          assert |s| >= e + 2 ==> s[e + 1..][1..] == s[e + 2..];
        }
      }
    }
  }

  lemma NoDigit(q: Parser, b: Byte, answer: Answer)
    requires q.state == InBody(ChunkSizeStart) && Unhex(b) == -1
    ensures OnByte(q, b, answer).Rejected?
  {
  }

  lemma RunLineFeed(q: Parser, log: seq<Event>, s: Bytes, answer: Answer)
    requires q.state == InBody(ChunkSizeAlmostDone)
    ensures var o := Run(q, log, s, answer);
            if s == [] then o.Going?
            else if s[0] != LF || q.nread + 1 > MAX_HEADER_SIZE then o == Failed
            else o == Run(AfterLine(q, q.length), Push(log, Notify(ChunkHeader(q.length))), s[1..], answer)
  {
    hide Run, OnByte, Push, AfterLine;
    if s == [] {
      RunNone(q, log, answer);
    } else {
      LineFeed(q, s[0], answer);
      if s[0] != LF || q.nread + 1 > MAX_HEADER_SIZE {
        RunReject(q, log, s, answer);
      } else {
        RunNote(q, log, s, AfterLine(q, q.length), Notify(ChunkHeader(q.length)), answer);
      }
    }
  }

  /** The data of a chunk and the line end after it. */
  lemma RunData(q: Parser, log: seq<Event>, s: Bytes, answer: Answer)
    requires q.state == InBody(ChunkData) && q.length > 0
    ensures var n, o := q.length, Run(q, log, s, answer);
            if |s| <= n then o.Going?
            else if s[n] != CR then o == Failed
            else if |s| == n + 1 then o.Going?
            else if s[n + 1] != LF then o == Failed
            else o == Run(q.(nread := 0, length := 0, state := InBody(ChunkSizeStart)),
                          Push(Push(log, Data(Body, s[..n])), Notify(ChunkComplete)), s[n + 2..], answer)
  {
    hide Run, OnByte, Push;
    var n := q.length;
    if s == [] {
      RunNone(q, log, answer);
    } else if |s| < n {
      RunChunk(q, log, s, |s|, answer);
      assert s[|s|..] == [];
      RunNone(q.(length := n - |s|), Push(log, Data(Body, s[..|s|])), answer);
    } else {
      RunChunk(q, log, s, n, answer);
      var q1 := q.(length := 0, state := InBody(ChunkDataAlmostDone));
      RunDataEnd(q1, Push(log, Data(Body, s[..n])), s[n..], answer);
      assert |s| >= n + 2 ==> s[n..][2..] == s[n + 2..];
    }
  }

  lemma RunDataEnd(q: Parser, log: seq<Event>, s: Bytes, answer: Answer)
    requires q.state == InBody(ChunkDataAlmostDone)
    ensures var o := Run(q, log, s, answer);
            if s == [] then o.Going?
            else if s[0] != CR then o == Failed
            else if |s| == 1 then o.Going?
            else if s[1] != LF then o == Failed
            else o == Run(q.(nread := 0, state := InBody(ChunkSizeStart)), Push(log, Notify(ChunkComplete)), s[2..], answer)
  {
    hide Run, OnByte, Push;
    if s == [] {
      RunNone(q, log, answer);
    } else {
      DataEndByte(q, s[0], answer);
      if s[0] != CR {
        RunReject(q, log, s, answer);
      } else {
        var q1 := q.(state := InBody(ChunkDataDone));
        RunNext(q, log, s, q1, answer);
        if |s| == 1 {
          assert s[1..] == [];
          RunNone(q1, log, answer);
        } else {
          DataEndByte(q1, s[1], answer);
          if s[1] != LF {
            RunReject(q1, log, s[1..], answer);
          } else {
            RunNote(q1, log, s[1..], q.(nread := 0, state := InBody(ChunkSizeStart)), Notify(ChunkComplete), answer);
            assert s[1..][1..] == s[2..];
          }
        }
      }
    }
  }

  lemma DataEndByte(q: Parser, b: Byte, answer: Answer)
    ensures q.state == InBody(ChunkDataAlmostDone) ==>
              OnByte(q, b, answer) == if b == CR then Next(q.(state := InBody(ChunkDataDone)), []) else HttpMachine.Rejected
    ensures q.state == InBody(ChunkDataDone) ==>
              OnByte(q, b, answer) == if b == LF then Next(q.(nread := 0, state := InBody(ChunkSizeStart)), [Notify(ChunkComplete)])
                                    else HttpMachine.Rejected
  {
  }

  /** The parser finds the chunk the lengths say: not a byte more or less. */
  lemma FindsFirst(q: Parser, log: seq<Event>, s: Bytes, answer: Answer)
    requires q.state == InBody(ChunkSizeStart) && q.nread == 0
    ensures var f, o := FirstChunk(s), Run(q, log, s, answer);
            && (f.Bad? ==> o == Failed)
            && (f.Partial? ==> o.Going?)
            && (f.Last? ==> o == Run(AfterLine(q, 0), Push(log, Notify(ChunkHeader(0))), s[f.used..], answer))
            && (f.Piece? ==> o == Run(q.(length := 0), PushAll(log, PieceEvents(f.data)), s[f.used..], answer))
  {
    hide Run, OnByte, Push, ReadLine;
    RunLine(q, log, s, answer);
    var l := ReadLine(s);
    if l.Line? && l.size > 0 {
      var log1, rest := Push(log, Notify(ChunkHeader(l.size))), s[l.used..];
      RunData(AfterLine(q, l.size), log1, rest, answer);
      assert |rest| >= l.size ==> rest[..l.size] == s[l.used..l.used + l.size];
      assert |rest| >= l.size + 2 ==> rest[l.size + 2..] == s[l.used + l.size + 2..];
      if |rest| >= l.size {
        PushThree(log, rest[..l.size]);
      }
    }
  }

  function PieceEvents(data: Bytes): seq<Event>
  {
    [Notify(ChunkHeader(|data|)), Data(Body, data), Notify(ChunkComplete)]
  }

  lemma PushThree(log: seq<Event>, data: Bytes)
    ensures PushAll(log, PieceEvents(data)) ==
            Push(Push(Push(log, Notify(ChunkHeader(|data|))), Data(Body, data)), Notify(ChunkComplete))
  {
    hide Push;
    var es := PieceEvents(data);
    assert es[1..] == [Data(Body, data), Notify(ChunkComplete)] && es[1..][1..] == [Notify(ChunkComplete)];
    PushAllOne(Push(Push(log, Notify(ChunkHeader(|data|))), Data(Body, data)), Notify(ChunkComplete));
  }

  // ---- Whole bodies ----

  /** A chunked body: malformed, not finished, or the data of its chunks and its length without the trailer. */
  datatype Unchunked = Malformed | Unfinished | Whole(pieces: seq<Bytes>, used: nat)

  function Unchunk(s: Bytes): (r: Unchunked)
    ensures r.Whole? ==> r.used <= |s|
    decreases |s|
  {
    match FirstChunk(s)
    case Bad => Malformed
    case Partial => Unfinished
    case Last(used) => Whole([], used)
    case Piece(data, used) =>
      var r := Unchunk(s[used..]);
      if r.Whole? then Whole([data] + r.pieces, used + r.used) else r
  }

  function AllPieces(log: seq<Event>, pieces: seq<Bytes>): seq<Event>
    decreases |pieces|
  {
    if pieces == [] then Push(log, Notify(ChunkHeader(0)))
    else AllPieces(PushAll(log, PieceEvents(pieces[0])), pieces[1..])
  }

  /** A chunked body is taken apart as the lengths of its chunks say, or refused, wherever it is cut off. */
  lemma {:induction false} ChunkedBody(q: Parser, log: seq<Event>, s: Bytes, answer: Answer)
    requires q.state == InBody(ChunkSizeStart) && q.nread == 0
    ensures var u, o := Unchunk(s), Run(q, log, s, answer);
            && (u.Malformed? ==> o == Failed)
            && (u.Unfinished? ==> o.Going?)
            && (u.Whole? ==> o == Run(AfterLine(q, 0), AllPieces(log, u.pieces), s[u.used..], answer))
    decreases |s|
  {
    hide Run, FirstChunk, PushAll, Push, PieceEvents;
    FindsFirst(q, log, s, answer);
    var f := FirstChunk(s);
    if f.Piece? {
      var log1 := PushAll(log, PieceEvents(f.data));
      ChunkedBody(q.(length := 0), log1, s[f.used..], answer);
      var r := Unchunk(s[f.used..]);
      if r.Whole? {
        assert ([f.data] + r.pieces)[1..] == r.pieces;
        assert s[f.used..][r.used..] == s[f.used + r.used..];
      }
    }
  }

  // ---- What the body callbacks deliver ----

  /** All data passed on as body. */
  function BodyOf(log: seq<Event>): Bytes
  {
    if log == [] then [] else BodyOf(log[..|log| - 1]) + BodyIn(log[|log| - 1])
  }

  function BodyIn(e: Event): Bytes
  {
    if e.Data? && e.element == Body then e.bytes else []
  }

  lemma BodyPush(log: seq<Event>, e: Event)
    ensures BodyOf(Push(log, e)) == BodyOf(log) + BodyIn(e)
  {
    if log != [] && e.Data? && log[|log| - 1].Data? && log[|log| - 1].element == e.element {
      var log', last := log[..|log| - 1], log[|log| - 1];
      assert Push(log, e)[..|log| - 1] == log';
      assert BodyOf(log') + (BodyIn(last) + BodyIn(e)) == BodyOf(log') + BodyIn(last) + BodyIn(e);
    } else {
      assert Push(log, e)[..|log|] == log;
    }
  }

  lemma BodyPiece(log: seq<Event>, data: Bytes)
    ensures BodyOf(PushAll(log, PieceEvents(data))) == BodyOf(log) + data
  {
    hide Push, BodyOf, PushAll;
    PushThree(log, data);
    var log1 := Push(log, Notify(ChunkHeader(|data|)));
    var log2 := Push(log1, Data(Body, data));
    BodyPush(log, Notify(ChunkHeader(|data|)));
    BodyPush(log1, Data(Body, data));
    BodyPush(log2, Notify(ChunkComplete));
  }

  /** The body of a chunked message is the data of its chunks, in order. */
  lemma {:induction false} BodyOfPieces(log: seq<Event>, pieces: seq<Bytes>)
    ensures BodyOf(AllPieces(log, pieces)) == BodyOf(log) + Concat(pieces)
    decreases |pieces|
  {
    hide Push, PushAll, BodyOf, PieceEvents;
    if pieces == [] {
      BodyPush(log, Notify(ChunkHeader(0)));
    } else {
      BodyPiece(log, pieces[0]);
      BodyOfPieces(PushAll(log, PieceEvents(pieces[0])), pieces[1..]);
      assert BodyOf(log) + pieces[0] + Concat(pieces[1..]) == BodyOf(log) + Concat(pieces);
    }
  }

  // ---- The end of a chunked message ----

  /** After the last chunk: trailer fields, which are not body, until the message is complete. */
  predicate InTrailer(q: Parser)
  {
    q.state.InHeader? && q.msg.flags.trailing
  }

  ghost predicate NoBody(es: seq<Event>)
  {
    forall e <- es :: BodyIn(e) == []
  }

  lemma TrailerField(p: Parser, b: Byte, answer: Answer)
    requires InTrailer(p)
    ensures TrailerStep(OnFieldStart(p, b, answer)) && TrailerStep(OnHeadersAlmostDone(p, b, answer))
  {
    hide Token, NewMessage;
  }

  /** A byte of the trailer leads on in the trailer or completes the message. */
  ghost predicate TrailerStep(r: Step)
  {
    r.Next? ==> NoBody(r.events) && (InTrailer(r.p) || (r.events != [] && r.events[|r.events| - 1] == Notify(MessageComplete)))
  }

  lemma TrailerEntry(h: HState, f: Flags, length: nat, b: Byte)
    ensures var v := ValueEntry(h, f, length, b); v.ValueStep? ==> v.flags.trailing == f.trailing
  {
  }

  lemma TrailerChar(m: Matcher, f: Flags, length: nat, b: Byte)
    ensures var v := ValueChar(m, f, length, b); v.ValueStep? ==> v.flags.trailing == f.trailing
  {
    TrailerRest(m, f, length, b);
    hide Match, Token, ListedChar, LengthDigit;
  }

  lemma TrailerRest(m: Matcher, f: Flags, length: nat, b: Byte)
    ensures ListedChar(m, f, length, b).flags.trailing == f.trailing
    ensures var v := LengthDigit(m, f, length, b); v.ValueStep? ==> v.flags.trailing == f.trailing
  {
  }

  lemma TrailerInValue(p: Parser, v: ValueStep, b: Byte)
    requires InTrailer(p) && (v.ValueStep? ==> v.flags.trailing)
    ensures TrailerStep(InValue(p, v, b))
  {
  }

  lemma TrailerName(p: Parser, b: Byte)
    requires InTrailer(p)
    ensures TrailerStep(OnField(p, b))
  {
    hide FieldChar, Token;
  }

  lemma TrailerLws(p: Parser, b: Byte, answer: Answer)
    requires InTrailer(p)
    ensures TrailerStep(OnValueLws(p, b, answer)) && TrailerStep(OnDiscardLws(p, b, answer)) && TrailerStep(OnDiscardWs(p, b))
    ensures TrailerStep(OnValueStart(p, b))
  {
    var q := p.(state := InHeader(HeaderFieldStart), msg := p.msg.(flags := Finished(p.hstate, p.msg.flags)));
    var p1 := p.(hstate := if p.hstate == ContentLengthNum then ContentLengthWs else p.hstate);
    TrailerField(q, b, answer);
    TrailerEntry(p.hstate, p.msg.flags, p.length, b);
    TrailerEntry(p1.hstate, p.msg.flags, p.length, b);
    TrailerInValue(p, ValueEntry(p.hstate, p.msg.flags, p.length, b), b);
    TrailerInValue(p1, ValueEntry(p1.hstate, p.msg.flags, p.length, b), b);
    TrailerBefore(OnFieldStart(q, b, answer));
    hide OnFieldStart, ValueEntry, InValue, Before;
  }

  lemma TrailerBefore(r: Step)
    requires TrailerStep(r)
    ensures TrailerStep(Before([Data(Value, [])], r))
  {
  }

  lemma TrailerPart(p: Parser, h: HeaderPart, b: Byte, answer: Answer)
    requires InTrailer(p) && p.state == InHeader(h)
    ensures TrailerStep(OnHeaderPart(p, h, b, answer))
  {
    match h {
      case HeaderFieldStart => TrailerField(p, b, answer);
      case HeadersAlmostDone => TrailerField(p, b, answer);
      case HeaderField => TrailerName(p, b);
      case HeaderValue =>
        var v := ValueChar(Matcher(p.hstate, p.index), p.msg.flags, p.length, b);
        TrailerChar(Matcher(p.hstate, p.index), p.msg.flags, p.length, b);
        TrailerInValue(p, v, b);
        hide ValueChar, InValue, IsHeaderChar;
      case _ =>
        TrailerLws(p, b, answer);
        hide OnValueLws, OnDiscardLws, OnDiscardWs, OnValueStart;
    }
    hide OnFieldStart, OnHeadersAlmostDone, OnField;
  }

  lemma HeaderByte(p: Parser, h: HeaderPart, b: Byte, answer: Answer)
    requires p.state == InHeader(h)
    ensures OnByte(p, b, answer) ==
            if p.nread + 1 > MAX_HEADER_SIZE then HttpMachine.Rejected else OnHeaderPart(p.(nread := p.nread + 1), h, b, answer)
  {
    hide OnHeaderPart;
  }

  lemma TrailerByte(p: Parser, b: Byte, answer: Answer)
    requires InTrailer(p)
    ensures TrailerStep(OnByte(p, b, answer))
  {
    hide OnHeaderPart, NoBody, OnByte;
    HeaderByte(p, p.state.h, b, answer);
    TrailerPart(p.(nread := p.nread + 1), p.state.h, b, answer);
  }

  lemma {:induction false} PushNoBody(log: seq<Event>, es: seq<Event>)
    requires NoBody(es)
    ensures BodyOf(PushAll(log, es)) == BodyOf(log)
    decreases |es|
  {
    hide Push, BodyOf;
    if es != [] {
      BodyPush(log, es[0]);
      PushNoBody(Push(log, es[0]), es[1..]);
    }
  }

  ghost predicate Completed(log: seq<Event>)
  {
    log != [] && log[|log| - 1] == Notify(MessageComplete)
  }

  lemma PushCompleted(log: seq<Event>, es: seq<Event>)
    requires Completed(es)
    ensures Completed(PushAll(log, es))
  {
    var es', e := es[..|es| - 1], es[|es| - 1];
    assert es == es' + [e];
    PushAllAppend(log, es', e);
    hide PushAll;
  }

  /** The trailer up to byte `k`, where the message is complete or the input ends, adds nothing to the body. */
  lemma {:induction false} RunTrailer(q: Parser, log: seq<Event>, s: Bytes, answer: Answer) returns (k: nat)
    requires InTrailer(q) && Run(q, log, s, answer).Going?
    ensures k <= |s|
    ensures var o := Run(q, log, s[..k], answer);
            o.Going? && BodyOf(o.log) == BodyOf(log) && (Completed(o.log) || (k == |s| && InTrailer(o.p)))
    decreases |s|
  {
    hide OnByte, PushAll, BodyOf, NoBody;
    if s == [] {
      RunNone(q, log, answer);
      return 0;
    }
    TrailerByte(q, s[0], answer);
    var r := OnByte(q, s[0], answer);
    var log1 := PushAll(log, r.events);
    PushNoBody(log, r.events);
    if InTrailer(r.p) {
      k := RunTrailer(r.p, log1, s[1..], answer);
      assert s[..k + 1][1..] == s[1..][..k];
      k := k + 1;
    } else {
      PushCompleted(log, r.events);
      assert s[..1][1..] == [];
      RunNone(r.p, log1, answer);
      k := 1;
    }
  }

  /**
   * What is delivered of an accepted chunked message, once its last chunk has come: the body that the
   * lengths of its chunks say, up to the byte that completes the message.
   */
  lemma ChunkedMessage(q: Parser, log: seq<Event>, s: Bytes, answer: Answer) returns (k: nat)
    requires q.state == InBody(ChunkSizeStart) && q.nread == 0
    requires Run(q, log, s, answer).Going? && Unchunk(s).Whole?
    ensures Unchunk(s).used <= k <= |s|
    ensures var o := Run(q, log, s[..k], answer);
            && o.Going? && BodyOf(o.log) == BodyOf(log) + Concat(Unchunk(s).pieces)
            && (Completed(o.log) || (k == |s| && InTrailer(o.p)))
  {
    hide Run, BodyOf, Unchunk;
    var u := Unchunk(s);
    var log1 := AllPieces(log, u.pieces);
    ChunkedBody(q, log, s, answer);
    BodyOfPieces(log, u.pieces);
    var n := RunTrailer(AfterLine(q, 0), log1, s[u.used..], answer);
    k := u.used + n;
    UnchunkPrefix(s, k);
    ChunkedBody(q, log, s[..k], answer);
    assert s[..k][u.used..] == s[u.used..][..n];
  }

  /** What comes after the last chunk does not matter. */
  lemma {:induction false} UnchunkPrefix(s: Bytes, k: nat)
    requires Unchunk(s).Whole? && Unchunk(s).used <= k <= |s|
    ensures Unchunk(s[..k]) == Unchunk(s)
    decreases |s|
  {
    hide FirstChunk;
    var f := FirstChunk(s);
    FirstPrefix(s, k);
    if f.Piece? {
      UnchunkPrefix(s[f.used..], k - f.used);
      assert s[..k][f.used..] == s[f.used..][..k - f.used];
    }
  }

  lemma FirstPrefix(s: Bytes, k: nat)
    requires k <= |s| && ((FirstChunk(s).Piece? && FirstChunk(s).used <= k) || (FirstChunk(s).Last? && FirstChunk(s).used <= k))
    ensures FirstChunk(s[..k]) == FirstChunk(s)
  {
    hide ReadLine;
    var l := ReadLine(s);
    LinePrefix(s, k);
    assert l.size > 0 ==> s[..k][l.used..l.used + l.size] == s[l.used..l.used + l.size];
  }

  lemma LinePrefix(s: Bytes, k: nat)
    requires k <= |s| && ReadLine(s).Line? && ReadLine(s).used <= k
    ensures ReadLine(s[..k]) == ReadLine(s)
  {
    hide Number, Fits;
    var n := HexRun(s);
    assert s[..k][..n] == s[..n];
    HexRunPrefix(s, k);
    CrPrefix(s[n..], k - n);
    assert s[..k][n..] == s[n..][..k - n];
  }

  lemma {:induction false} HexRunPrefix(s: Bytes, k: nat)
    requires HexRun(s) < k <= |s|
    ensures HexRun(s[..k]) == HexRun(s)
  {
    if HexRun(s) > 0 {
      HexRunPrefix(s[1..], k - 1);
      assert s[..k][1..] == s[1..][..k - 1];
    }
  }

  lemma {:induction false} CrPrefix(s: Bytes, k: nat)
    requires FirstCr(s) < k <= |s|
    ensures FirstCr(s[..k]) == FirstCr(s)
  {
    if FirstCr(s) > 0 {
      CrPrefix(s[1..], k - 1);
      assert s[..k][1..] == s[1..][..k - 1];
    }
  }

  // ---- Messages with a Content-Length ----

  /** The parser once the header block of a message without chunks is complete. */
  function Declared(q: Parser): Parser
  {
    q.(state := InBody(BodyIdentity), nread := 0, msg := q.msg.(upgrade := false))
  }

  lemma HeadEnd(q: Parser)
    requires q.state == InHeader(HeadersAlmostDone) && q.nread + 1 <= MAX_HEADER_SIZE
    requires !q.msg.flags.trailing && !q.msg.flags.chunked && !q.msg.flags.skipBody && !Upgrades(q.msg)
    requires q.length != ULLONG_MAX
    ensures var p := Declared(q);
            OnByte(q, LF, ReadBody) ==
            if q.length > 0 then Next(p, [Notify(HeadersComplete)])
            else Next(p.(state := NewMessage(p.msg, 0)), [Notify(HeadersComplete), Notify(MessageComplete)])
  {
    hide NewMessage, NeedsEof;
  }

  /** A message with Content-Length `n`: exactly `n` bytes are its body, and with them it is complete. */
  lemma SizedMessage(q: Parser, log: seq<Event>, body: Bytes, rest: Bytes)
    requires q.state == InHeader(HeadersAlmostDone) && q.nread + 1 <= MAX_HEADER_SIZE
    requires !q.msg.flags.trailing && !q.msg.flags.chunked && !q.msg.flags.skipBody && !Upgrades(q.msg)
    requires q.length == |body| < ULLONG_MAX
    ensures var log1 := Push(log, Notify(HeadersComplete));
            var log2 := if body == [] then log1 else Push(log1, Data(Body, body));
            var p := Declared(q).(length := 0);
            Run(q, log, [LF] + body + rest, ReadBody) ==
            Run(p.(state := NewMessage(p.msg, 0)), Push(log2, Notify(MessageComplete)), rest, ReadBody)
  {
    hide OnByte, Push, Run, NewMessage, NeedsEof;
    var s := [LF] + body + rest;
    var log1 := Push(log, Notify(HeadersComplete));
    assert s[1..] == body + rest;
    HeadEnd(q);
    if body == [] {
      var p := Declared(q);
      var es := [Notify(HeadersComplete), Notify(MessageComplete)];
      assert es[1..] == [Notify(MessageComplete)] && body + rest == rest;
      PushAllOne(log1, Notify(MessageComplete));
      RunStep(q, log, s, p.(state := NewMessage(p.msg, 0)), es);
    } else {
      RunNote(q, log, s, Declared(q), Notify(HeadersComplete), ReadBody);
      RunIdentityAll(Declared(q), log1, body + rest, |body|, ReadBody);
      assert (body + rest)[..|body|] == body && (body + rest)[|body|..] == rest;
      PushAllOne(Push(log1, Data(Body, body)), Notify(MessageComplete));
    }
  }

  lemma RunStep(q: Parser, log: seq<Event>, s: Bytes, q1: Parser, es: seq<Event>)
    requires s != [] && OnByte(q, s[0], ReadBody) == Next(q1, es)
    ensures Run(q, log, s, ReadBody) == Run(q1, PushAll(log, es), s[1..], ReadBody)
  {
    hide OnByte, PushAll;
  }

  /** The value of a Content-Length header, from its first digit to its line end, is stored exactly or refused. */
  lemma LengthHeader(q: Parser, log: seq<Event>, s: Bytes, answer: Answer)
    requires q.state == InHeader(HeaderValueDiscardWs) && q.hstate == ContentLength && !q.msg.flags.contentLength
    requires s != [] && (forall b <- s :: IsNum(b)) && q.nread + |s| <= MAX_HEADER_SIZE
    ensures Run(q, log, s, answer) ==
            if Fits(0, s, false, DEC_LIMIT)
            then Going(q.(state := InHeader(HeaderValue), hstate := ContentLengthNum, index := 0, nread := q.nread + |s|,
                          length := Number(0, s, false), msg := q.msg.(flags := q.msg.flags.(contentLength := true))),
                       Push(log, Data(Value, s)))
            else Failed
  {
    hide Push, Run, OnByte;
    var q1 := q.(state := InHeader(HeaderValue), hstate := ContentLengthNum, index := 0, nread := q.nread + 1,
                 length := Digit(s[0]), msg := q.msg.(flags := q.msg.flags.(contentLength := true)));
    var log1 := Push(log, Data(Value, [s[0]]));
    FirstDigit(q, s[0], answer);
    PushAllOne(log, Data(Value, [s[0]]));
    RunNote(q, log, s, q1, Data(Value, [s[0]]), answer);
    if |s| == 1 {
      assert s == [s[0]] && s[1..] == [];
      RunNone(q1, log1, answer);
    } else {
      LengthDigits(q1, log1, s[1..], answer);
      PushTwice(log, Value, [s[0]], s[1..]);
      assert [s[0]] + s[1..] == s;
    }
  }

  lemma FirstDigit(q: Parser, b: Byte, answer: Answer)
    requires q.state == InHeader(HeaderValueDiscardWs) && q.hstate == ContentLength && !q.msg.flags.contentLength
    requires IsNum(b) && q.nread + 1 <= MAX_HEADER_SIZE
    ensures OnByte(q, b, answer) ==
            Next(q.(state := InHeader(HeaderValue), hstate := ContentLengthNum, index := 0, nread := q.nread + 1, length := Digit(b),
                    msg := q.msg.(flags := q.msg.flags.(contentLength := true))), [Data(Value, [b])])
  {
    hide OnStatusPart, OnRequestPart, OnUrl, OnBodyPart;
  }
}
