/** Start lines: which methods, targets and versions the parser reads, and what it keeps of them. */
module HttpStart {
  import opened Bits
  import opened HttpMachine
  import opened HttpParsers
  import opened HttpHeaders
  import F = HttpFraming

  // ---- Methods ----

  /** `HTTP_METHOD_MAP` */
  datatype Method =
    | DELETE | GET | HEAD | POST | PUT | CONNECT | OPTIONS | TRACE | COPY | LOCK | MKCOL | MOVE | PROPFIND
    | PROPPATCH | SEARCH | UNLOCK | BIND | REBIND | UNBIND | ACL | REPORT | MKACTIVITY | CHECKOUT | MERGE
    | MSEARCH | NOTIFY | SUBSCRIBE | UNSUBSCRIBE | PATCH | PURGE | MKCALENDAR | LINK | UNLINK | SOURCE

  function Name(m: Method): (s: string)
    ensures |s| >= 3
  {
    match m
    case DELETE => "DELETE"
    case GET => "GET"
    case HEAD => "HEAD"
    case POST => "POST"
    case PUT => "PUT"
    case CONNECT => "CONNECT"
    case OPTIONS => "OPTIONS"
    case TRACE => "TRACE"
    case COPY => "COPY"
    case LOCK => "LOCK"
    case MKCOL => "MKCOL"
    case MOVE => "MOVE"
    case PROPFIND => "PROPFIND"
    case PROPPATCH => "PROPPATCH"
    case SEARCH => "SEARCH"
    case UNLOCK => "UNLOCK"
    case BIND => "BIND"
    case REBIND => "REBIND"
    case UNBIND => "UNBIND"
    case ACL => "ACL"
    case REPORT => "REPORT"
    case MKACTIVITY => "MKACTIVITY"
    case CHECKOUT => "CHECKOUT"
    case MERGE => "MERGE"
    case MSEARCH => "M-SEARCH"
    case NOTIFY => "NOTIFY"
    case SUBSCRIBE => "SUBSCRIBE"
    case UNSUBSCRIBE => "UNSUBSCRIBE"
    case PATCH => "PATCH"
    case PURGE => "PURGE"
    case MKCALENDAR => "MKCALENDAR"
    case LINK => "LINK"
    case UNLINK => "UNLINK"
    case SOURCE => "SOURCE"
  }

  ghost predicate IsMethod(s: string)
  {
    exists m: Method :: Name(m) == s
  }

  /** The method assumed after one more letter, number `i`; the empty string for none. */
  function NextMethod(verb: string, i: nat, b: Byte): string
  {
    if b != 0 && Is(verb, i, b) then verb else OtherMethod(verb, i, b)
  }

  /** The method assumed after some letters. */
  function Assumed(s: Bytes): string
    requires s != []
  {
    if |s| == 1 then FirstMethod(s[0])
    else
      var verb := Assumed(s[..|s| - 1]);
      if verb == "" then "" else NextMethod(verb, |s| - 1, s[|s| - 1])
  }

  predicate Same(s: Bytes, m: string)
  {
    |s| == |m| && forall i :: 0 <= i < |s| ==> s[i] == m[i] as int
  }

  /** The letters read so far are those of the method. */
  predicate Starts(s: Bytes, m: string)
  {
    |s| <= |m| && forall i :: 0 <= i < |s| ==> s[i] == m[i] as int
  }

  /** Another method assumed instead begins with the same letters. */
  lemma OtherBegins(verb: string, i: nat, b: Byte)
    requires OtherMethod(verb, i, b) != ""
    ensures var m := OtherMethod(verb, i, b);
            i < |m| && i < |verb| && m[..i] == verb[..i] && m[i] as int == b
  {
  }

  /** The branches of `OtherMethod` as methods. */
  lemma OtherIsMethod(verb: string, i: nat, b: Byte)
    requires OtherMethod(verb, i, b) != ""
    ensures IsMethod(OtherMethod(verb, i, b))
  {
    if verb == "POST" || verb == "PUT" || verb == "CONNECT" {
      OtherIsPost(verb, i, b);
    } else if verb == "MKCOL" {
      OtherIsMkcol(i, b);
    } else {
      OtherIsRest(verb, i, b);
    }
    hide OtherMethod;
  }

  lemma OtherIsPost(verb: string, i: nat, b: Byte)
    requires OtherMethod(verb, i, b) != "" && (verb == "POST" || verb == "PUT" || verb == "CONNECT")
    ensures IsMethod(OtherMethod(verb, i, b))
  {
    assert Name(PUT) == "PUT" && Name(PATCH) == "PATCH" && Name(PROPFIND) == "PROPFIND" && Name(PURGE) == "PURGE"
           && Name(CHECKOUT) == "CHECKOUT" && Name(COPY) == "COPY";
    hide Name;
  }

  lemma OtherIsMkcol(i: nat, b: Byte)
    requires OtherMethod("MKCOL", i, b) != ""
    ensures IsMethod(OtherMethod("MKCOL", i, b))
  {
    assert Name(MOVE) == "MOVE" && Name(MERGE) == "MERGE" && Name(MSEARCH) == "M-SEARCH"
           && Name(MKACTIVITY) == "MKACTIVITY" && Name(MKCALENDAR) == "MKCALENDAR";
    hide Name;
  }

  lemma OtherIsRest(verb: string, i: nat, b: Byte)
    requires OtherMethod(verb, i, b) != "" && verb != "POST" && verb != "PUT" && verb != "CONNECT" && verb != "MKCOL"
    ensures IsMethod(OtherMethod(verb, i, b))
  {
    assert Name(SEARCH) == "SEARCH" && Name(SOURCE) == "SOURCE" && Name(REBIND) == "REBIND"
           && Name(PROPPATCH) == "PROPPATCH" && Name(LINK) == "LINK" && Name(UNSUBSCRIBE) == "UNSUBSCRIBE"
           && Name(UNBIND) == "UNBIND" && Name(UNLINK) == "UNLINK";
    hide Name;
  }

  lemma FirstIsMethod(b: Byte)
    requires FirstMethod(b) != ""
    ensures IsMethod(FirstMethod(b)) && FirstMethod(b)[0] as int == b
  {
    if b <= 72 {
      FirstBelow(b);
    } else {
      FirstAbove(b);
    }
    hide FirstMethod;
  }

  lemma FirstBelow(b: Byte)
    requires FirstMethod(b) != "" && b <= 72
    ensures IsMethod(FirstMethod(b)) && FirstMethod(b)[0] as int == b
  {
    assert Name(ACL) == "ACL" && Name(BIND) == "BIND" && Name(CONNECT) == "CONNECT" && Name(DELETE) == "DELETE"
           && Name(GET) == "GET" && Name(HEAD) == "HEAD";
    hide Name;
  }

  lemma FirstAbove(b: Byte)
    requires FirstMethod(b) != "" && b > 72
    ensures IsMethod(FirstMethod(b)) && FirstMethod(b)[0] as int == b
  {
    assert Name(LOCK) == "LOCK" && Name(MKCOL) == "MKCOL" && Name(NOTIFY) == "NOTIFY" && Name(OPTIONS) == "OPTIONS"
           && Name(POST) == "POST" && Name(REPORT) == "REPORT" && Name(SUBSCRIBE) == "SUBSCRIBE" && Name(TRACE) == "TRACE"
           && Name(UNLOCK) == "UNLOCK";
    hide Name;
  }

  /** What is assumed is always a method that begins with the letters read. */
  lemma {:induction false} AssumedStarts(s: Bytes)
    requires s != [] && Assumed(s) != ""
    ensures IsMethod(Assumed(s)) && Starts(s, Assumed(s))
    decreases |s|
  {
    hide IsMethod, OtherMethod, FirstMethod;
    if |s| == 1 {
      FirstIsMethod(s[0]);
    } else {
      var t := s[..|s| - 1];
      var verb := Assumed(t);
      AssumedStarts(t);
      if !(s[|s| - 1] != 0 && Is(verb, |s| - 1, s[|s| - 1])) {
        OtherBegins(verb, |s| - 1, s[|s| - 1]);
        OtherIsMethod(verb, |s| - 1, s[|s| - 1]);
        var m := Assumed(s);
        forall i | 0 <= i < |s|
          ensures s[i] == m[i] as int
        {
          assert i < |t| ==> s[i] == t[i] && m[..|t|][i] == verb[..|t|][i];
        }
      }
    }
  }

  /** The method assumed after `k` letters of a method. */
  function Way(m: Method, k: nat): string
  {
    match m
    case PUT => if k < 2 then "POST" else "PUT"
    case COPY => if k < 3 then "CONNECT" else "COPY"
    case MOVE => if k < 2 then "MKCOL" else "MOVE"
    case PROPFIND => if k < 2 then "POST" else "PROPFIND"
    case PROPPATCH => if k < 2 then "POST" else if k < 5 then "PROPFIND" else "PROPPATCH"
    case SEARCH => if k < 2 then "SUBSCRIBE" else "SEARCH"
    case REBIND => if k < 3 then "REPORT" else "REBIND"
    case UNBIND => if k < 3 then "UNLOCK" else "UNBIND"
    case MKACTIVITY => if k < 3 then "MKCOL" else "MKACTIVITY"
    case CHECKOUT => if k < 2 then "CONNECT" else "CHECKOUT"
    case MERGE => if k < 2 then "MKCOL" else "MERGE"
    case MSEARCH => if k < 2 then "MKCOL" else "M-SEARCH"
    case UNSUBSCRIBE => if k < 3 then "UNLOCK" else "UNSUBSCRIBE"
    case PATCH => if k < 2 then "POST" else "PATCH"
    case PURGE => if k < 2 then "POST" else if k < 3 then "PUT" else "PURGE"
    case MKCALENDAR => if k < 4 then "MKCOL" else "MKCALENDAR"
    case LINK => if k < 2 then "LOCK" else "LINK"
    case UNLINK => if k < 4 then "UNLOCK" else "UNLINK"
    case SOURCE => if k < 2 then "SUBSCRIBE" else "SOURCE"
    case _ => Name(m)
  }

  predicate IsLetter(c: char)
  {
    'A' <= c <= 'Z' || c == '-'
  }

  predicate AllLetters(m: string)
  {
    |m| >= 3 && forall i :: 0 <= i < |m| ==> IsLetter(m[i])
  }

  lemma Letters(m: Method)
    ensures AllLetters(Name(m))
  {
  }

  lemma LetterAt(m: string, k: nat)
    requires AllLetters(m) && k < |m|
    ensures IsLetter(m[k])
  {
  }

  /** One more letter of a method leads on to it. */
  ghost predicate Goes(m: Method, k: nat)
  {
    1 <= k < |Name(m)| && IsLetter(Name(m)[k]) && NextMethod(Way(m, k), k, Name(m)[k] as int) == Way(m, k + 1) != ""
  }

  lemma WayGoes(m: Method, k: nat)
    requires 1 <= k < |Name(m)|
    ensures Goes(m, k)
  {
    Letters(m);
    LetterAt(Name(m), k);
    hide *;
    if Way(m, k) == Name(m) == Way(m, k + 1) {
      StaysGoes(m, k);
    } else if k == 1 {
      if Way(m, 2) == Name(m) {
        SecondGoes(m);
      } else {
        SecondStays(m);
      }
    } else {
      BranchGoes(m, k);
    }
  }

  lemma SecondGoes(m: Method)
    requires IsLetter(Name(m)[1]) && Way(m, 1) != Way(m, 2) == Name(m)
    ensures Goes(m, 1)
  {
  }

  lemma SecondStays(m: Method)
    requires IsLetter(Name(m)[1]) && Way(m, 2) != Name(m)
    ensures Goes(m, 1)
  {
  }

  lemma BranchGoes(m: Method, k: nat)
    requires 2 <= k < |Name(m)| && IsLetter(Name(m)[k]) && !(Way(m, k) == Name(m) == Way(m, k + 1))
    ensures Goes(m, k)
  {
  }

  lemma StaysGoes(m: Method, k: nat)
    requires 1 <= k < |Name(m)| && IsLetter(Name(m)[k]) && Way(m, k) == Name(m) == Way(m, k + 1)
    ensures Goes(m, k)
  {
    hide Way, OtherMethod, Name;
  }

  lemma WayStarts(m: Method)
    ensures IsLetter(Name(m)[0]) && FirstMethod(Name(m)[0] as int) == Way(m, 1) != ""
  {
    hide *;
    if Way(m, 1) == Name(m) {
      StartsDirect(m);
    } else {
      StartsBranch(m);
    }
  }

  lemma StartsDirect(m: Method)
    requires Way(m, 1) == Name(m)
    ensures IsLetter(Name(m)[0]) && FirstMethod(Name(m)[0] as int) == Way(m, 1) != ""
  {
  }

  lemma StartsBranch(m: Method)
    requires Way(m, 1) != Name(m)
    ensures IsLetter(Name(m)[0]) && FirstMethod(Name(m)[0] as int) == Way(m, 1) != ""
  {
  }

  lemma WayEnds(m: Method)
    ensures Way(m, |Name(m)|) == Name(m)
  {
  }

  /** The letters of a method lead to it. */
  lemma {:induction false} AssumedOf(m: Method, s: Bytes)
    requires s != [] && Starts(s, Name(m))
    ensures Assumed(s) == Way(m, |s|) != ""
    decreases |s|
  {
    hide Way, Name, NextMethod, FirstMethod, Goes;
    if |s| == 1 {
      WayStarts(m);
    } else {
      var t := s[..|s| - 1];
      AssumedOf(m, t);
      WayGoes(m, |t|);
      GoesTo(m, |t|);
    }
  }

  lemma GoesTo(m: Method, k: nat)
    requires Goes(m, k)
    ensures 1 <= k < |Name(m)| && 0 <= Name(m)[k] as int < 128
    ensures NextMethod(Way(m, k), k, Name(m)[k] as int) == Way(m, k + 1) != ""
  {
  }

  // ---- Reading a method ----

  /** The parser after some letters of a method. */
  function InMethod(q: Parser, verb: string, n: nat): Parser
  {
    Reset(q).(state := InRequest(ReqMethod), index := n, nread := q.nread + n, msg := Reset(q).msg.(verb := verb))
  }

  lemma FirstByte(q: Parser, b: Byte, answer: Answer)
    requires q.state == InRequest(StartReq) && b != CR && b != LF && q.nread + 1 <= MAX_HEADER_SIZE
    ensures OnByte(q, b, answer) ==
            if FirstMethod(b) == "" then Rejected else Next(InMethod(q, FirstMethod(b), 1), [Notify(MessageBegin)])
  {
    hide FirstMethod;
  }

  lemma NextByte(q: Parser, verb: string, n: nat, b: Byte, answer: Answer)
    requires q.nread + n + 1 <= MAX_HEADER_SIZE && b != SP
    ensures var m := NextMethod(verb, n, b);
            verb != "" ==> OnByte(InMethod(q, verb, n), b, answer) == if m == "" then Rejected else Next(InMethod(q, m, n + 1), [])
  {
    hide OtherMethod, Is;
  }

  lemma LastByte(q: Parser, verb: string, n: nat, answer: Answer)
    requires q.nread + n + 1 <= MAX_HEADER_SIZE && (forall i :: 0 <= i < |verb| ==> verb[i] != ' ')
    ensures OnByte(InMethod(q, verb, n), SP, answer) ==
            if n == |verb| then Next(InMethod(q, verb, n + 1).(state := InRequest(ReqSpacesBeforeUrl)), []) else Rejected
  {
  }

  /** A method without its first letters is read letter by letter. */
  lemma {:induction false} RunLetters(q: Parser, log: seq<Event>, s: Bytes, n: nat, answer: Answer)
    requires 1 <= n <= |s| && q.nread + |s| <= MAX_HEADER_SIZE && Assumed(s[..n]) != "" && forall i :: 0 <= i < |s| ==> s[i] != SP
    ensures Run(InMethod(q, Assumed(s[..n]), n), log, s[n..], answer) ==
            if Assumed(s) == "" then Failed else Going(InMethod(q, Assumed(s), |s|), log)
    decreases |s| - n
  {
    hide OnByte, Run, NextMethod, FirstMethod, InMethod;
    var p := InMethod(q, Assumed(s[..n]), n);
    if n == |s| {
      assert s[..n] == s && s[n..] == [];
      RunNone(p, log, answer);
    } else {
      assert s[..n + 1][..n] == s[..n] && s[n..][0] == s[n] && s[n..][1..] == s[n + 1..];
      NextByte(q, Assumed(s[..n]), n, s[n], answer);
      if Assumed(s[..n + 1]) == "" {
        F.RunReject(p, log, s[n..], answer);
        StaysNone(s, n + 1);
      } else {
        F.RunNext(p, log, s[n..], InMethod(q, Assumed(s[..n + 1]), n + 1), answer);
        RunLetters(q, log, s, n + 1, answer);
      }
    }
  }

  lemma {:induction false} StaysNone(s: Bytes, n: nat)
    requires 1 <= n <= |s| && Assumed(s[..n]) == ""
    ensures Assumed(s) == ""
    decreases |s| - n
  {
    hide NextMethod, FirstMethod;
    if n == |s| {
      assert s[..n] == s;
    } else {
      assert s[..n + 1][..n] == s[..n];
      StaysNone(s, n + 1);
    }
  }

  /** A method and the space after it: it is accepted if and only if it is one of the known ones, and that one is kept. */
  lemma RunMethod(q: Parser, log: seq<Event>, s: Bytes, answer: Answer)
    requires q.state == InRequest(StartReq) && q.nread + |s| + 1 <= MAX_HEADER_SIZE
    requires s != [] && s[0] != CR && s[0] != LF && forall i :: 0 <= i < |s| ==> s[i] != SP
    ensures var o := Run(q, log, s + [SP], answer);
            && (o == Failed || (exists m: Method :: Same(s, Name(m)) && o == AfterMethod(q, log, Name(m))))
            && forall m: Method :: Same(s, Name(m)) ==> o == AfterMethod(q, log, Name(m))
  {
    hide OnByte, Run, Assumed, FirstMethod, InMethod, Push, Name, Same;
    var t, log1 := s + [SP], Push(log, Notify(MessageBegin));
    OneLetter(s);
    FirstByte(q, s[0], answer);
    if Assumed(s[..1]) == "" {
      F.RunReject(q, log, t, answer);
      StaysNone(s, 1);
    } else {
      F.RunNote(q, log, t, InMethod(q, Assumed(s[..1]), 1), Notify(MessageBegin), answer);
      assert t[1..] == s[1..] + [SP];
      RunSplit(InMethod(q, Assumed(s[..1]), 1), log1, s[1..], [SP], answer);
      RunLetters(q, log1, s, 1, answer);
    }
    if Assumed(s) != "" {
      AssumedStarts(s);
      RunSpace(q, log1, s, answer);
    }
    forall m: Method | Same(s, Name(m))
      ensures Run(q, log, t, answer) == AfterMethod(q, log, Name(m))
    {
      SameStarts(s, Name(m));
      AssumedOf(m, s);
      WayEnds(m);
    }
  }

  /** The parser after a method and the space. */
  function AfterMethod(q: Parser, log: seq<Event>, verb: string): Outcome
  {
    Going(InMethod(q, verb, |verb| + 1).(state := InRequest(ReqSpacesBeforeUrl)), Push(log, Notify(MessageBegin)))
  }

  lemma OneLetter(s: Bytes)
    requires s != []
    ensures Assumed(s[..1]) == FirstMethod(s[0])
  {
  }

  lemma SameStarts(s: Bytes, m: string)
    requires Same(s, m)
    ensures Starts(s, m) && |s| == |m|
  {
  }

  lemma StartsSame(s: Bytes, m: string)
    requires Starts(s, m) && |s| == |m|
    ensures Same(s, m)
  {
  }

  lemma RunSpace(q: Parser, log: seq<Event>, s: Bytes, answer: Answer)
    requires s != [] && q.nread + |s| + 1 <= MAX_HEADER_SIZE && IsMethod(Assumed(s)) && Starts(s, Assumed(s))
    ensures var verb := Assumed(s);
            Run(InMethod(q, verb, |s|), log, [SP], answer) ==
            if |s| == |verb| then Going(InMethod(q, verb, |s| + 1).(state := InRequest(ReqSpacesBeforeUrl)), log) else Failed
    ensures |s| == |Assumed(s)| ==> Same(s, Assumed(s))
  {
    hide OnByte, Run, Assumed, InMethod, Name;
    var verb := Assumed(s);
    var m: Method :| Name(m) == verb;
    Letters(m);
    LastByte(q, verb, |s|, answer);
    assert [SP][1..] == [];
    if |s| == |verb| {
      var p := InMethod(q, verb, |s| + 1).(state := InRequest(ReqSpacesBeforeUrl));
      F.RunNext(InMethod(q, verb, |s|), log, [SP], p, answer);
      RunNone(p, log, answer);
    } else {
      F.RunReject(InMethod(q, verb, |s|), log, [SP], answer);
    }
  }

  // ---- Targets ----

  /** Printable and no blank. */
  predicate Graphic(s: Bytes)
  {
    forall i :: 0 <= i < |s| ==> 33 <= s[i] <= 126
  }

  predicate NoBlanks(s: Bytes)
  {
    forall i :: 0 <= i < |s| ==> s[i] != SP && s[i] != CR && s[i] != LF
  }

  /** Within a path, its query or its fragment. */
  predicate PathLike(u: UrlPart)
  {
    u == ReqPath || u == ReqQueryStringStart || u == ReqQueryString || u == ReqFragmentStart || u == ReqFragment
  }

  lemma PathChar(u: UrlPart, b: Byte)
    requires PathLike(u) && b != SP && b != CR && b != LF
    ensures ParseUrlChar(u, b).Within? <==> 33 <= b <= 126
    ensures ParseUrlChar(u, b).Within? ==> PathLike(ParseUrlChar(u, b).u)
  {
  }

  lemma PathByte(q: Parser, u: UrlPart, b: Byte, answer: Answer)
    requires q.state == InUrl(u) && PathLike(u) && b != SP && b != CR && b != LF && q.nread + 1 <= MAX_HEADER_SIZE
    ensures OnByte(q, b, answer) ==
            if 33 <= b <= 126 then Next(q.(state := InUrl(ParseUrlChar(u, b).u), nread := q.nread + 1), [Data(Url, [b])]) else Rejected
  {
    PathChar(u, b);
    hide ParseUrlChar;
  }

  /** More of a target: it is accepted if and only if all of it is printable. */
  lemma {:induction false} RunPath(q: Parser, log: seq<Event>, u: UrlPart, a: Bytes, s: Bytes, answer: Answer) returns (u': UrlPart)
    requires q.state == InUrl(u) && PathLike(u) && NoBlanks(s) && q.nread + |s| <= MAX_HEADER_SIZE
    ensures PathLike(u')
    ensures Run(q, Push(log, Data(Url, a)), s, answer) ==
            if Graphic(s) then Going(q.(state := InUrl(u'), nread := q.nread + |s|), Push(log, Data(Url, a + s))) else Failed
    decreases |s|
  {
    hide OnByte, Run, Push, ParseUrlChar;
    u' := u;
    var log1 := Push(log, Data(Url, a));
    if s == [] {
      assert a + s == a;
      RunNone(q, log1, answer);
    } else {
      PathByte(q, u, s[0], answer);
      if 33 <= s[0] <= 126 {
        PathChar(u, s[0]);
        var q1 := q.(state := InUrl(ParseUrlChar(u, s[0]).u), nread := q.nread + 1);
        F.RunNote(q, log1, s, q1, Data(Url, [s[0]]), answer);
        PushTwice(log, Url, a, [s[0]]);
        u' := RunPath(q1, log, q1.state.u, a + [s[0]], s[1..], answer);
        assert a + [s[0]] + s[1..] == a + s;
        assert Graphic(s) <==> Graphic(s[1..]);
      } else {
        F.RunReject(q, log1, s, answer);
      }
    }
  }

  lemma TargetBytes(q: Parser, b: Byte, answer: Answer)
    requires q.nread + 1 <= MAX_HEADER_SIZE
    ensures q.state == InRequest(ReqSpacesBeforeUrl) && q.msg.verb != "CONNECT" && (b == 47 || b == 42) ==>
              OnByte(q, b, answer) == Next(q.(state := InUrl(ReqPath), nread := q.nread + 1), [Data(Url, [b])])
    ensures q.state.InUrl? && PathLike(q.state.u) ==>
              OnByte(q, SP, answer) == Next(q.(state := InRequest(ReqHttpStart), nread := q.nread + 1), [])
  {
  }

  /** A target in origin form or `*`, and the space after it. */
  lemma RunTarget(q: Parser, log: seq<Event>, t: Bytes, answer: Answer)
    requires q.state == InRequest(ReqSpacesBeforeUrl) && q.msg.verb != "CONNECT" && q.nread + |t| + 1 <= MAX_HEADER_SIZE
    requires t != [] && (t[0] == 47 || t[0] == 42) && NoBlanks(t)
    ensures Run(q, log, t + [SP], answer) ==
            if Graphic(t) then Going(q.(state := InRequest(ReqHttpStart), nread := q.nread + |t| + 1), Push(log, Data(Url, t))) else Failed
  {
    hide OnByte, Run, Push;
    var q1 := q.(state := InUrl(ReqPath), nread := q.nread + 1);
    var s := t + [SP];
    TargetBytes(q, t[0], answer);
    F.RunNote(q, log, s, q1, Data(Url, [t[0]]), answer);
    assert s[1..] == t[1..] + [SP] && [t[0]] + t[1..] == t;
    assert Graphic(t) <==> Graphic(t[1..]);
    RunSplit(q1, Push(log, Data(Url, [t[0]])), t[1..], [SP], answer);
    var u := RunPath(q1, log, ReqPath, [t[0]], t[1..], answer);
    if Graphic(t) {
      var q2 := q1.(state := InUrl(u), nread := q1.nread + |t| - 1);
      var q3 := q2.(state := InRequest(ReqHttpStart), nread := q2.nread + 1);
      TargetBytes(q2, SP, answer);
      assert [SP][1..] == [];
      F.RunNext(q2, Push(log, Data(Url, t)), [SP], q3, answer);
      RunNone(q3, Push(log, Data(Url, t)), answer);
    }
  }

  // ---- Versions ----

  type Decimal = n: nat | n < 10

  function VersionText(major: Decimal, minor: Decimal): (s: Bytes)
    ensures |s| == 8
  {
    [72, 84, 84, 80, 47, 48 + major, 46, 48 + minor]
  }

  function VersionState(k: nat): RequestPart
  {
    if k == 0 then ReqHttpStart else if k == 1 then ReqHttpH else if k == 2 then ReqHttpHT else if k == 3 then ReqHttpHTT
    else if k == 4 then ReqHttpHTTP else if k == 5 then ReqHttpMajor else if k == 6 then ReqHttpDot else if k == 7 then ReqHttpMinor
    else ReqHttpEnd
  }

  /** The parser after `k` bytes of the version. */
  function InVersion(q: Parser, major: Decimal, minor: Decimal, k: nat): Parser
  {
    q.(state := InRequest(VersionState(k)), nread := q.nread + k,
       msg := q.msg.(major := if k < 6 then q.msg.major else major, minor := if k < 8 then q.msg.minor else minor))
  }

  lemma VersionByte(q: Parser, major: Decimal, minor: Decimal, k: nat, answer: Answer)
    requires k < 8 && q.nread + k + 1 <= MAX_HEADER_SIZE
    ensures OnByte(InVersion(q, major, minor, k), VersionText(major, minor)[k], answer) == Next(InVersion(q, major, minor, k + 1), [])
  {
  }

  lemma {:induction false} RunVersion(q: Parser, log: seq<Event>, major: Decimal, minor: Decimal, k: nat, answer: Answer)
    requires k <= 8 && q.nread + 8 <= MAX_HEADER_SIZE
    ensures Run(InVersion(q, major, minor, k), log, VersionText(major, minor)[k..], answer) == Going(InVersion(q, major, minor, 8), log)
    decreases 8 - k
  {
    hide OnByte, Run, InVersion;
    var s := VersionText(major, minor);
    if k == 8 {
      assert s[8..] == [];
      RunNone(InVersion(q, major, minor, 8), log, answer);
    } else {
      VersionByte(q, major, minor, k, answer);
      assert s[k..][1..] == s[k + 1..];
      F.RunNext(InVersion(q, major, minor, k), log, s[k..], InVersion(q, major, minor, k + 1), answer);
      RunVersion(q, log, major, minor, k + 1, answer);
    }
  }

  /** Which byte may come after `k` bytes of the version. */
  predicate VersionFits(k: nat, b: Byte)
  {
    if k == 5 || k == 7 then IsNum(b) else b == if k == 0 then 72 else if k == 3 then 80 else if k == 4 then 47 else if k == 6 then 46 else 84
  }

  lemma NoVersionByte(q: Parser, k: nat, b: Byte, answer: Answer)
    requires k < 8 && q.state == InRequest(VersionState(k)) && !VersionFits(k, b) && (k == 0 ==> b != SP && q.msg.verb != "SOURCE")
    ensures OnByte(q, b, answer) == Rejected
  {
  }

  /** A version is accepted if and only if it is `HTTP/`, a digit, a dot and a digit. */
  lemma {:induction false} VersionExactly(q: Parser, log: seq<Event>, s: Bytes, k: nat, major: Decimal, minor: Decimal, answer: Answer)
    requires |s| == 8 && k <= 8 && q.nread + 8 <= MAX_HEADER_SIZE && s[0] != SP && q.msg.verb != "SOURCE"
    requires (IsNum(s[5]) ==> major == s[5] - 48) && (IsNum(s[7]) ==> minor == s[7] - 48)
    ensures Run(InVersion(q, major, minor, k), log, s[k..], answer) ==
            if forall i :: k <= i < 8 ==> VersionFits(i, s[i]) then Going(InVersion(q, major, minor, 8), log) else Failed
    decreases 8 - k
  {
    hide OnByte, Run, InVersion, VersionFits;
    var p := InVersion(q, major, minor, k);
    if k == 8 {
      assert s[8..] == [];
      RunNone(p, log, answer);
    } else {
      assert s[k..][1..] == s[k + 1..] && s[k..][0] == s[k];
      InVersionState(q, major, minor, k);
      if VersionFits(k, s[k]) {
        FitsText(s, k, major, minor);
        VersionByte(q, major, minor, k, answer);
        F.RunNext(p, log, s[k..], InVersion(q, major, minor, k + 1), answer);
        VersionExactly(q, log, s, k + 1, major, minor, answer);
      } else {
        NoVersionByte(p, k, s[k], answer);
        F.RunReject(p, log, s[k..], answer);
      }
    }
  }

  lemma InVersionState(q: Parser, major: Decimal, minor: Decimal, k: nat)
    ensures InVersion(q, major, minor, k).state == InRequest(VersionState(k)) && InVersion(q, major, minor, k).msg.verb == q.msg.verb
  {
  }

  lemma FitsText(s: Bytes, k: nat, major: Decimal, minor: Decimal)
    requires |s| == 8 && k < 8 && VersionFits(k, s[k])
    requires (IsNum(s[5]) ==> major == s[5] - 48) && (IsNum(s[7]) ==> minor == s[7] - 48)
    ensures VersionText(major, minor)[k] == s[k]
  {
  }

  lemma RequestEndBytes(q: Parser, answer: Answer)
    requires q.nread + 1 <= MAX_HEADER_SIZE
    ensures q.state == InRequest(ReqHttpEnd) ==>
              OnByte(q, CR, answer) == Next(q.(state := InRequest(ReqLineAlmostDone), nread := q.nread + 1), [])
    ensures q.state == InRequest(ReqHttpEnd) || q.state == InRequest(ReqLineAlmostDone) || q.state == InStatus(ResLineAlmostDone) ==>
              OnByte(q, LF, answer) == Next(q.(state := InHeader(HeaderFieldStart), nread := q.nread + 1), [])
  {
  }

  lemma RunRequestEnd(q: Parser, log: seq<Event>, end: Bytes, answer: Answer)
    requires q.state == InRequest(ReqHttpEnd) && LineEnds(end) && q.nread + |end| <= MAX_HEADER_SIZE
    ensures Run(q, log, end, answer) == Going(q.(state := InHeader(HeaderFieldStart), nread := q.nread + |end|), log)
  {
    hide OnByte, Run;
    var q1 := q.(state := if end == [LF] then InHeader(HeaderFieldStart) else InRequest(ReqLineAlmostDone), nread := q.nread + 1);
    RequestEndBytes(q, answer);
    F.RunNext(q, log, end, q1, answer);
    if end == [LF] {
      assert end[1..] == [];
      RunNone(q1, log, answer);
    } else {
      var q2 := q.(state := InHeader(HeaderFieldStart), nread := q.nread + 2);
      RequestEndBytes(q1, answer);
      assert end[1..] == [LF] && [LF][1..] == [];
      F.RunNext(q1, log, [LF], q2, answer);
      RunNone(q2, log, answer);
    }
  }

  // ---- Request lines ----

  /** A request line: a method, a target in origin form or `*`, a version and a line end. */
  datatype RequestLine = RequestLine(verb: Method, letters: Bytes, target: Bytes, major: Decimal, minor: Decimal, end: Bytes)

  predicate IsRequest(l: RequestLine)
  {
    && Same(l.letters, Name(l.verb)) && l.verb != CONNECT && LineEnds(l.end)
    && l.target != [] && (l.target[0] == 47 || l.target[0] == 42) && Graphic(l.target)
  }

  function LineText(l: RequestLine): Bytes
  {
    (l.letters + [SP]) + ((l.target + [SP]) + (VersionText(l.major, l.minor) + l.end))
  }

  /** The parser after a request line. */
  ghost predicate RequestRead(q: Parser, l: RequestLine, p: Parser)
  {
    && p.state == InHeader(HeaderFieldStart) && p.nread == q.nread + |LineText(l)| && p.length == ULLONG_MAX
    && p.msg == Message(q.msg.kind, Name(l.verb), l.major, l.minor, q.msg.status, NO_FLAGS, q.msg.upgrade)
  }

  lemma RunRequestLine(q: Parser, log: seq<Event>, l: RequestLine, answer: Answer) returns (p: Parser)
    requires q.state == InRequest(StartReq) && IsRequest(l) && q.nread + |LineText(l)| <= MAX_HEADER_SIZE
    ensures RequestRead(q, l, p)
    ensures Run(q, log, LineText(l), answer) == Going(p, Push(Push(log, Notify(MessageBegin)), Data(Url, l.target)))
  {
    var log1 := Push(log, Notify(MessageBegin));
    var rest := VersionText(l.major, l.minor) + l.end;
    hide OnByte, Run, Push, Name, Same, Reset, IsRequest, VersionText, InVersion;
    RunKnown(q, log, l, answer);
    RunSplit(q, log, l.letters + [SP], (l.target + [SP]) + rest, answer);
    var q1 := AfterMethod(q, log, Name(l.verb)).p;
    p := RunRequestRest(q1, log1, l, answer);
    ResetMessage(q);
  }

  lemma RunKnown(q: Parser, log: seq<Event>, l: RequestLine, answer: Answer)
    requires q.state == InRequest(StartReq) && IsRequest(l) && q.nread + |l.letters| + 1 <= MAX_HEADER_SIZE
    ensures Run(q, log, l.letters + [SP], answer) == AfterMethod(q, log, Name(l.verb)) && |l.letters| == |Name(l.verb)|
  {
    hide Run, AfterMethod, Name, IsRequest;
    LettersOf(l);
    RunMethod(q, log, l.letters, answer);
  }

  /** The parser after a version and its line end. */
  function AfterVersion(q: Parser, major: Decimal, minor: Decimal, n: nat): Parser
  {
    q.(state := InHeader(HeaderFieldStart), nread := q.nread + n, msg := q.msg.(major := major, minor := minor))
  }

  /** The target and the version. */
  lemma RunRequestRest(q: Parser, log: seq<Event>, l: RequestLine, answer: Answer) returns (p: Parser)
    requires q.state == InRequest(ReqSpacesBeforeUrl) && q.msg.verb == Name(l.verb) && IsRequest(l)
    requires q.nread + |l.target| + 9 + |l.end| <= MAX_HEADER_SIZE
    ensures p == AfterVersion(q, l.major, l.minor, |l.target| + 9 + |l.end|)
    ensures Run(q, log, (l.target + [SP]) + (VersionText(l.major, l.minor) + l.end), answer) == Going(p, Push(log, Data(Url, l.target)))
  {
    assert l.target != [] && (l.target[0] == 47 || l.target[0] == 42) && Graphic(l.target) && LineEnds(l.end);
    LettersOf(l);
    hide *;
    p := RunTargetVersion(q, log, l.target, l.major, l.minor, l.end, answer);
  }

  lemma RunTargetVersion(q: Parser, log: seq<Event>, t: Bytes, major: Decimal, minor: Decimal, end: Bytes, answer: Answer) returns (p: Parser)
    requires q.state == InRequest(ReqSpacesBeforeUrl) && q.msg.verb != "CONNECT" && LineEnds(end)
    requires t != [] && (t[0] == 47 || t[0] == 42) && Graphic(t) && NoBlanks(t) && q.nread + |t| + 9 + |end| <= MAX_HEADER_SIZE
    ensures p == AfterVersion(q, major, minor, |t| + 9 + |end|)
    ensures Run(q, log, (t + [SP]) + (VersionText(major, minor) + end), answer) == Going(p, Push(log, Data(Url, t)))
  {
    var q2 := q.(state := InRequest(ReqHttpStart), nread := q.nread + |t| + 1);
    p := AfterVersion(q, major, minor, |t| + 9 + |end|);
    assert p == AfterVersion(q2, major, minor, 8 + |end|);
    hide *;
    RunTarget(q, log, t, answer);
    RunSplit(q, log, t + [SP], VersionText(major, minor) + end, answer);
    ThenGoing(q2, Push(log, Data(Url, t)), VersionText(major, minor) + end, answer);
    RunVersionEnd(q2, Push(log, Data(Url, t)), major, minor, end, answer);
  }

  lemma ThenGoing(p: Parser, log: seq<Event>, s: Bytes, answer: Answer)
    ensures Then(Going(p, log), s, answer) == Run(p, log, s, answer)
  {
    hide Run;
  }

  lemma RunVersionEnd(q: Parser, log: seq<Event>, major: Decimal, minor: Decimal, end: Bytes, answer: Answer)
    requires q.state == InRequest(ReqHttpStart) && LineEnds(end) && q.nread + 8 + |end| <= MAX_HEADER_SIZE
    ensures Run(q, log, VersionText(major, minor) + end, answer) ==
            Going(AfterVersion(q, major, minor, 8 + |end|), log)
  {
    var v := VersionText(major, minor);
    hide OnByte, Run, VersionState;
    VersionBegins(q, major, minor);
    RunVersion(q, log, major, minor, 0, answer);
    assert v[0..] == v;
    RunSplit(q, log, v, end, answer);
    RunRequestEnd(InVersion(q, major, minor, 8), log, end, answer);
  }

  lemma LettersOf(l: RequestLine)
    requires IsRequest(l)
    ensures var s := l.letters; s != [] && s[0] != CR && s[0] != LF && NoBlanks(s) && NoBlanks(l.target)
    ensures Same(l.letters, Name(l.verb)) && Name(l.verb) != "CONNECT" && |l.letters| == |Name(l.verb)|
  {
    Letters(l.verb);
    var m := Name(l.verb);
    assert forall i :: 0 <= i < |m| ==> IsLetter(m[i]);
  }

  lemma VersionBegins(q: Parser, major: Decimal, minor: Decimal)
    requires q.state == InRequest(ReqHttpStart)
    ensures InVersion(q, major, minor, 0) == q && InVersion(q, major, minor, 8).state == InRequest(ReqHttpEnd)
  {
  }

  lemma ResetMessage(q: Parser)
    ensures Reset(q).length == ULLONG_MAX && Reset(q).msg == q.msg.(flags := NO_FLAGS)
  {
  }

  /** A line end that begins with CR ends with LF. */
  lemma BareCr(q: Parser, b: Byte, answer: Answer)
    requires b != LF
    requires q.state == InRequest(ReqLineAlmostDone) || q.state == InStatus(ResLineAlmostDone) || q.state == InHeader(HeaderAlmostDone)
             || q.state == InHeader(HeaderValueDiscardWsAlmostDone) || q.state == InHeader(HeadersAlmostDone)
             || q.state == InBody(ChunkSizeAlmostDone) || q.state == InBody(ChunkDataDone)
    ensures OnByte(q, b, answer) == Rejected
  {
  }

  // ---- Status lines ----

  /** A status line: a version, three digits, and a reason that may be empty. */
  datatype StatusLine = StatusLine(major: Decimal, minor: Decimal, a: Decimal, b: Decimal, c: Decimal, reason: Bytes, end: Bytes)

  function StatusOf(l: StatusLine): nat
  {
    100 * l.a + 10 * l.b + l.c
  }

  predicate IsResponse(l: StatusLine)
  {
    LineEnds(l.end) && forall i :: 0 <= i < |l.reason| ==> l.reason[i] != CR && l.reason[i] != LF
  }

  function StatusHead(l: StatusLine): Bytes
  {
    [72, 84, 84, 80, 47, 48 + l.major, 46, 48 + l.minor, SP, 48 + l.a, 48 + l.b, 48 + l.c, SP]
  }

  function StatusText(l: StatusLine): Bytes
  {
    StatusHead(l) + (l.reason + l.end)
  }

  function StatusState(k: nat): StatusPart
  {
    if k == 1 then ResH else if k == 2 then ResHT else if k == 3 then ResHTT else if k == 4 then ResHTTP else if k == 5 then ResHttpMajor
    else if k == 6 then ResHttpDot else if k == 7 then ResHttpMinor else if k == 8 then ResHttpEnd else if k == 9 then ResFirstStatusCode
    else if k < 13 then ResStatusCode else ResStatusStart
  }

  /** The parser after the first `k` bytes of a status line. */
  function InHead(q: Parser, l: StatusLine, k: nat): Parser
  {
    var m := Reset(q).msg;
    Reset(q).(state := InStatus(StatusState(k)), nread := q.nread + k,
              msg := m.(major := if k < 6 then m.major else l.major, minor := if k < 8 then m.minor else l.minor,
                        status := if k < 10 then m.status else if k == 10 then l.a else if k == 11 then 10 * l.a + l.b else StatusOf(l)))
  }

  lemma HeadByte(q: Parser, l: StatusLine, k: nat, answer: Answer)
    requires 1 <= k < 13 && q.nread + k + 1 <= MAX_HEADER_SIZE
    ensures OnByte(InHead(q, l, k), StatusHead(l)[k], answer) == Next(InHead(q, l, k + 1), [])
  {
  }

  lemma FirstHeadByte(q: Parser, l: StatusLine, answer: Answer)
    requires q.state == InStatus(StartRes) && q.nread + 1 <= MAX_HEADER_SIZE
    ensures OnByte(q, 72, answer) == Next(InHead(q, l, 1), [Notify(MessageBegin)])
  {
  }

  lemma {:induction false} RunHead(q: Parser, log: seq<Event>, l: StatusLine, k: nat, answer: Answer)
    requires 1 <= k <= 13 && q.nread + 13 <= MAX_HEADER_SIZE
    ensures Run(InHead(q, l, k), log, StatusHead(l)[k..], answer) == Going(InHead(q, l, 13), log)
    decreases 13 - k
  {
    hide OnByte, Run, InHead, StatusHead;
    var s := StatusHead(l);
    HeadLength(l);
    if k == 13 {
      assert s[13..] == [];
      RunNone(InHead(q, l, 13), log, answer);
    } else {
      HeadByte(q, l, k, answer);
      assert s[k..][1..] == s[k + 1..];
      F.RunNext(InHead(q, l, k), log, s[k..], InHead(q, l, k + 1), answer);
      RunHead(q, log, l, k + 1, answer);
    }
  }

  lemma HeadLength(l: StatusLine)
    ensures |StatusHead(l)| == 13 && StatusHead(l)[0] == 72
  {
  }

  lemma ReasonBytes(q: Parser, b: Byte, answer: Answer)
    requires q.nread + 1 <= MAX_HEADER_SIZE && b != CR && b != LF
    ensures q.state == InStatus(ResStatusStart) ==>
              OnByte(q, b, answer) == Next(q.(state := InStatus(ResStatus), index := 0, nread := q.nread + 1), [Data(Status, [b])])
    ensures q.state == InStatus(ResStatus) ==> OnByte(q, b, answer) == Next(q.(nread := q.nread + 1), [Data(Status, [b])])
  {
  }

  lemma {:induction false} RunReason(q: Parser, log: seq<Event>, a: Bytes, s: Bytes, answer: Answer)
    requires q.state == InStatus(ResStatus) && q.nread + |s| <= MAX_HEADER_SIZE
    requires forall i :: 0 <= i < |s| ==> s[i] != CR && s[i] != LF
    ensures Run(q, Push(log, Data(Status, a)), s, answer) == Going(q.(nread := q.nread + |s|), Push(log, Data(Status, a + s)))
    decreases |s|
  {
    hide OnByte, Run, Push;
    var log1 := Push(log, Data(Status, a));
    if s == [] {
      assert a + s == a;
      RunNone(q, log1, answer);
    } else {
      ReasonBytes(q, s[0], answer);
      F.RunNote(q, log1, s, q.(nread := q.nread + 1), Data(Status, [s[0]]), answer);
      PushTwice(log, Status, a, [s[0]]);
      RunReason(q.(nread := q.nread + 1), log, a + [s[0]], s[1..], answer);
      assert a + [s[0]] + s[1..] == a + s;
    }
  }

  lemma ReasonEndBytes(q: Parser, answer: Answer)
    requires q.nread + 1 <= MAX_HEADER_SIZE
    ensures q.state == InStatus(ResStatusStart) ==>
              && OnByte(q, CR, answer) == Next(q.(state := InStatus(ResLineAlmostDone), index := 0, nread := q.nread + 1), [Data(Status, [])])
              && OnByte(q, LF, answer) == Next(q.(state := InHeader(HeaderFieldStart), index := 0, nread := q.nread + 1), [Data(Status, [])])
    ensures q.state == InStatus(ResStatus) ==>
              && OnByte(q, CR, answer) == Next(q.(state := InStatus(ResLineAlmostDone), nread := q.nread + 1), [])
              && OnByte(q, LF, answer) == Next(q.(state := InHeader(HeaderFieldStart), nread := q.nread + 1), [])
  {
  }

  /** The end of a status line, after a reason or without one. */
  lemma RunStatusEnd(q: Parser, log: seq<Event>, end: Bytes, answer: Answer)
    requires (q.state == InStatus(ResStatus) || (q.state == InStatus(ResStatusStart) && q.index == 0)) && LineEnds(end)
    requires q.nread + |end| <= MAX_HEADER_SIZE
    ensures Run(q, log, end, answer) ==
            Going(q.(state := InHeader(HeaderFieldStart), nread := q.nread + |end|),
                  if q.state == InStatus(ResStatus) then log else Push(log, Data(Status, [])))
  {
    hide OnByte, Run, Push;
    var q1 := q.(state := if end == [LF] then InHeader(HeaderFieldStart) else InStatus(ResLineAlmostDone), nread := q.nread + 1);
    var log1 := if q.state == InStatus(ResStatus) then log else Push(log, Data(Status, []));
    ReasonEndBytes(q, answer);
    if q.state == InStatus(ResStatus) {
      F.RunNext(q, log, end, q1, answer);
    } else {
      F.RunNote(q, log, end, q1, Data(Status, []), answer);
    }
    if end == [LF] {
      assert end[1..] == [];
      RunNone(q1, log1, answer);
    } else {
      var q2 := q.(state := InHeader(HeaderFieldStart), nread := q.nread + 2);
      RequestEndBytes(q1, answer);
      assert end[1..] == [LF] && [LF][1..] == [];
      F.RunNext(q1, log1, [LF], q2, answer);
      RunNone(q2, log1, answer);
    }
  }

  /** The parser after a status line. */
  ghost predicate StatusRead(q: Parser, l: StatusLine, p: Parser)
  {
    && p.state == InHeader(HeaderFieldStart) && p.nread == q.nread + |StatusText(l)| && p.length == ULLONG_MAX
    && p.msg == Message(q.msg.kind, q.msg.verb, l.major, l.minor, StatusOf(l), NO_FLAGS, q.msg.upgrade)
  }

  lemma RunStatusLine(q: Parser, log: seq<Event>, l: StatusLine, answer: Answer) returns (p: Parser)
    requires q.state == InStatus(StartRes) && IsResponse(l) && q.nread + |StatusText(l)| <= MAX_HEADER_SIZE
    ensures StatusRead(q, l, p)
    ensures Run(q, log, StatusText(l), answer) == Going(p, Push(Push(log, Notify(MessageBegin)), Data(Status, l.reason)))
  {
    var s, log1 := StatusHead(l), Push(log, Notify(MessageBegin));
    var q1 := InHead(q, l, 13);
    HeadLength(l);
    ResetMessage(q);
    assert q1.state == InStatus(ResStatusStart) && q1.nread == q.nread + 13 && LineEnds(l.end);
    assert forall i :: 0 <= i < |l.reason| ==> l.reason[i] != CR && l.reason[i] != LF;
    hide OnByte, Run, Push, StatusHead, Reset, IsResponse, LineEnds;
    WholeHead(q, log, l, answer);
    RunSplit(q, log, s, l.reason + l.end, answer);
    p := RunReasonEnd(q1, log1, l.reason, l.end, answer);
  }

  lemma WholeHead(q: Parser, log: seq<Event>, l: StatusLine, answer: Answer)
    requires q.state == InStatus(StartRes) && q.nread + 13 <= MAX_HEADER_SIZE
    ensures Run(q, log, StatusHead(l), answer) == Going(InHead(q, l, 13), Push(log, Notify(MessageBegin)))
  {
    hide OnByte, Run, Push, StatusHead, InHead;
    HeadLength(l);
    FirstHeadByte(q, l, answer);
    F.RunNote(q, log, StatusHead(l), InHead(q, l, 1), Notify(MessageBegin), answer);
    RunHead(q, Push(log, Notify(MessageBegin)), l, 1, answer);
  }

  lemma RunReasonEnd(q: Parser, log: seq<Event>, reason: Bytes, end: Bytes, answer: Answer) returns (p: Parser)
    requires q.state == InStatus(ResStatusStart) && LineEnds(end) && q.nread + |reason| + |end| <= MAX_HEADER_SIZE
    requires forall i :: 0 <= i < |reason| ==> reason[i] != CR && reason[i] != LF
    ensures p == q.(state := InHeader(HeaderFieldStart), index := 0, nread := q.nread + |reason| + |end|)
    ensures Run(q, log, reason + end, answer) == Going(p, Push(log, Data(Status, reason)))
  {
    hide OnByte, Run, Push;
    p := q.(state := InHeader(HeaderFieldStart), index := 0, nread := q.nread + |reason| + |end|);
    if reason == [] {
      assert reason + end == end;
      EmptyReason(q, log, end, answer);
    } else {
      var q1 := q.(state := InStatus(ResStatus), index := 0, nread := q.nread + 1);
      ReasonBytes(q, reason[0], answer);
      F.RunNote(q, log, reason, q1, Data(Status, [reason[0]]), answer);
      RunReason(q1, log, [reason[0]], reason[1..], answer);
      assert [reason[0]] + reason[1..] == reason;
      RunSplit(q, log, reason, end, answer);
      RunStatusEnd(q1.(nread := q1.nread + |reason| - 1), Push(log, Data(Status, reason)), end, answer);
    }
  }

  /** Without a reason the index is reset as well. */
  lemma EmptyReason(q: Parser, log: seq<Event>, end: Bytes, answer: Answer)
    requires q.state == InStatus(ResStatusStart) && LineEnds(end) && q.nread + |end| <= MAX_HEADER_SIZE
    ensures Run(q, log, end, answer) ==
            Going(q.(state := InHeader(HeaderFieldStart), index := 0, nread := q.nread + |end|), Push(log, Data(Status, [])))
  {
    hide OnByte, Run, Push;
    ReasonEndBytes(q, answer);
    ReasonEndBytes(q.(index := 0), answer);
    RunStatusEnd(q.(index := 0), log, end, answer);
    var q1 := q.(state := if end == [LF] then InHeader(HeaderFieldStart) else InStatus(ResLineAlmostDone), index := 0, nread := q.nread + 1);
    F.RunNote(q, log, end, q1, Data(Status, []), answer);
    F.RunNote(q.(index := 0), log, end, q1, Data(Status, []), answer);
  }

  // ---- Requests or responses ----

  /** A parser for both kinds takes the input for a response if it begins with `HT`, and else for a request. */
  lemma EitherKind(q: Parser, log: seq<Event>, s: Bytes, answer: Answer)
    requires q.state == InStatus(StartReqOrRes) && |s| >= 2 && s[0] != CR && s[0] != LF && q.nread + 2 <= MAX_HEADER_SIZE
    ensures var p := if s[0] == 72 && s[1] == 84 then q.(state := InStatus(StartRes), msg := q.msg.(kind := Response))
                     else q.(state := InRequest(StartReq), msg := q.msg.(kind := Request));
            Run(q, log, s, answer) == Run(p, log, s, answer)
  {
    var p := if s[0] == 72 && s[1] == 84 then q.(state := InStatus(StartRes), msg := q.msg.(kind := Response))
             else q.(state := InRequest(StartReq), msg := q.msg.(kind := Request));
    var log1 := Push(log, Notify(MessageBegin));
    if s[0] == 72 {
      BeginsH(q, answer);
      SecondByte(q, s[1], answer);
      hide Run, OnByte, Push;
      F.RunNote(q, log, s, Reset(q).(state := InStatus(ResOrRespH), nread := q.nread + 1), Notify(MessageBegin), answer);
      var p1 := OnByte(p, 72, answer).p;
      F.RunNote(p, log, s, p1, Notify(MessageBegin), answer);
      RunSame(Reset(q).(state := InStatus(ResOrRespH), nread := q.nread + 1), p1, log1, s[1..], answer);
    } else {
      OtherFirst(q, s[0], answer);
      RunSame(q, p, log, s, answer);
    }
  }

  lemma RunSame(p: Parser, q: Parser, log: seq<Event>, s: Bytes, answer: Answer)
    requires s != [] && OnByte(p, s[0], answer) == OnByte(q, s[0], answer)
    ensures Run(p, log, s, answer) == Run(q, log, s, answer)
  {
    hide OnByte, PushAll;
  }

  lemma BeginsH(q: Parser, answer: Answer)
    requires q.state == InStatus(StartReqOrRes) && q.nread + 1 <= MAX_HEADER_SIZE
    ensures OnByte(q, 72, answer) == Next(Reset(q).(state := InStatus(ResOrRespH), nread := q.nread + 1), [Notify(MessageBegin)])
    ensures var p := q.(state := InStatus(StartRes), msg := q.msg.(kind := Response));
            OnByte(p, 72, answer) == Next(Reset(p).(state := InStatus(ResH), nread := q.nread + 1), [Notify(MessageBegin)])
    ensures var p := q.(state := InRequest(StartReq), msg := q.msg.(kind := Request));
            OnByte(p, 72, answer) == Next(InMethod(p, "HEAD", 1), [Notify(MessageBegin)])
  {
  }

  lemma SecondByte(q: Parser, b: Byte, answer: Answer)
    requires q.state == InStatus(StartReqOrRes) && q.nread + 2 <= MAX_HEADER_SIZE
    ensures var p1 := Reset(q).(state := InStatus(ResOrRespH), nread := q.nread + 1);
            var r := q.(state := InStatus(StartRes), msg := q.msg.(kind := Response));
            var p := q.(state := InRequest(StartReq), msg := q.msg.(kind := Request));
            if b == 84 then OnByte(p1, b, answer) == OnByte(Reset(r).(state := InStatus(ResH), nread := q.nread + 1), b, answer)
            else OnByte(p1, b, answer) == OnByte(InMethod(p, "HEAD", 1), b, answer)
  {
  }

  lemma OtherFirst(q: Parser, b: Byte, answer: Answer)
    requires q.state == InStatus(StartReqOrRes) && b != 72 && b != CR && b != LF
    ensures OnByte(q, b, answer) == OnByte(q.(state := InRequest(StartReq), msg := q.msg.(kind := Request)), b, answer)
  {
    hide FirstMethod;
  }
}
