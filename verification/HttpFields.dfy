/** What the parser makes of a header field by its name and value. */
module HttpFields {
  import opened Bits
  import opened HttpMachine
  import opened HttpReach
  import opened HttpFraming
  import opened HttpHeaders
  import opened HttpOptions

  // ---- Names ----

  /** The names that mean something to the parser. */
  datatype Role = Unknown | ConnectionRole | LengthRole | EncodingRole | UpgradeRole

  function RoleOf(name: Bytes): Role
  {
    if Spells(name, "connection") || Spells(name, "proxy-connection") then ConnectionRole
    else if Spells(name, "content-length") then LengthRole
    else if Spells(name, "transfer-encoding") then EncodingRole
    else if Spells(name, "upgrade") then UpgradeRole
    else Unknown
  }

  /** What a matcher stands for at the end of the name. */
  function RoleIn(h: HState): Role
  {
    if h == HState.Connection then ConnectionRole
    else if h == ContentLength then LengthRole
    else if h == TransferEncoding then EncodingRole
    else if h == UpgradeName then UpgradeRole
    else Unknown
  }

  /** The matcher after the first character of a name. */
  function StartState(c: Byte): HState
  {
    if c == 99 then C else if c == 112 then MatchProxyConnection else if c == 116 then MatchTransferEncoding
    else if c == 117 then MatchUpgrade else General
  }

  function NameRead(s: Bytes): Matcher
    requires s != []
  {
    Names(Matcher(StartState(Token(s[0])), 0), s[1..])
  }

  /** What has been read is the beginning of a name. */
  predicate Pre(s: Bytes, name: string)
  {
    |s| <= |name| && forall i :: 0 <= i < |s| ==> Token(s[i]) == name[i] as int
  }

  lemma PreStep(s: Bytes, b: Byte, name: string)
    ensures Pre(s + [b], name) <==> Pre(s, name) && |s| < |name| && Token(b) == name[|s|] as int
  {
    hide Token;
    var t := s + [b];
    assert t[|s|] == b && forall i :: 0 <= i < |s| ==> t[i] == s[i];
  }

  /** The names differ in their first letter, but for two that differ in their fourth. */
  lemma Heads(s: Bytes)
    requires s != []
    ensures Pre(s, "connection") ==> Token(s[0]) == 99 && (|s| > 3 ==> Token(s[3]) == 110)
    ensures Pre(s, "content-length") ==> Token(s[0]) == 99 && (|s| > 3 ==> Token(s[3]) == 116)
    ensures Pre(s, "proxy-connection") ==> Token(s[0]) == 112
    ensures Pre(s, "transfer-encoding") ==> Token(s[0]) == 116
    ensures Pre(s, "upgrade") ==> Token(s[0]) == 117
  {
    hide Token;
  }

  /** The name a state is in the middle of. */
  function NameOf(h: HState): string
  {
    match h
    case MatchConnection => "connection"
    case MatchContentLength => "content-length"
    case MatchProxyConnection => "proxy-connection"
    case MatchTransferEncoding => "transfer-encoding"
    case MatchUpgrade => "upgrade"
    case _ => ""
  }

  predicate NoName(s: Bytes)
  {
    && !Pre(s, "connection") && !Pre(s, "content-length") && !Pre(s, "proxy-connection")
    && !Pre(s, "transfer-encoding") && !Pre(s, "upgrade")
  }

  /** The state says exactly which name has been read so far. */
  predicate Follows(s: Bytes, m: Matcher)
  {
    s != [] && match m.h
    case General => NoName(s)
    case C => m.index == 0 && |s| == 1 && Pre(s, "connection") && Pre(s, "content-length")
    case CO => m.index == 1 && |s| == 2 && Pre(s, "connection") && Pre(s, "content-length")
    case CON => m.index == 2 && |s| == 3 && Pre(s, "connection") && Pre(s, "content-length")
    case Connection => Spelled(s, "connection") || Spelled(s, "proxy-connection")
    case ContentLength => Spelled(s, "content-length")
    case TransferEncoding => Spelled(s, "transfer-encoding")
    case UpgradeName => Spelled(s, "upgrade")
    case _ =>
      NameOf(m.h) != "" && m.index == |s| - 1 && |s| < |NameOf(m.h)| && Pre(s, NameOf(m.h))
      && (m.h == MatchConnection || m.h == MatchContentLength ==> |s| > 3)
  }

  predicate Spelled(s: Bytes, name: string)
  {
    Pre(s, name) && |s| == |name|
  }

  lemma StartFollows(b: Byte)
    requires Token(b) != 0
    ensures Follows([b], Matcher(StartState(Token(b)), 0))
  {
    Heads([b]);
    hide Token;
  }

  /** After "c", "co" and "con". */
  lemma FollowsCon(s: Bytes, m: Matcher, b: Byte)
    requires Follows(s, m) && (m.h == C || m.h == CO || m.h == CON)
    ensures Follows(s + [b], FieldChar(m, b))
  {
    PreStep(s, b, "connection");
    PreStep(s, b, "content-length");
    Heads(s + [b]);
    Heads(s);
    hide Pre, Token;
  }

  function DoneOf(h: HState): HState
  {
    match h
    case MatchContentLength => ContentLength
    case MatchTransferEncoding => TransferEncoding
    case MatchUpgrade => UpgradeName
    case _ => HState.Connection
  }

  lemma MatchesChar(m: Matcher, b: Byte)
    requires NameOf(m.h) != ""
    ensures FieldChar(m, b) == Match(NameOf(m.h), m, Token(b), DoneOf(m.h), General)
  {
    hide Token, Is;
  }

  /** A character that does not fit a name fits no other one. */
  lemma NoOther(s: Bytes, b: Byte, h: HState)
    requires NameOf(h) != "" && s != [] && Pre(s, NameOf(h)) && (h == MatchConnection || h == MatchContentLength ==> |s| > 3)
    requires !Pre(s + [b], NameOf(h))
    ensures NoName(s + [b])
  {
    hide Pre, Token;
    Heads(s);
    Heads(s + [b]);
    assert (s + [b])[0] == s[0] && (|s| > 3 ==> (s + [b])[3] == s[3]);
  }

  lemma DoneFollows(s: Bytes, h: HState, i: nat)
    requires NameOf(h) != "" && s != [] && Spelled(s, NameOf(h))
    ensures Follows(s, Matcher(DoneOf(h), i))
  {
    hide Spelled;
  }

  lemma GoesOnFollows(s: Bytes, h: HState)
    requires NameOf(h) != "" && s != [] && |s| < |NameOf(h)| && Pre(s, NameOf(h))
    requires h == MatchConnection || h == MatchContentLength ==> |s| > 3
    ensures Follows(s, Matcher(h, |s| - 1))
  {
    hide Pre;
  }

  /** In the middle of a name. */
  lemma FollowsMatch(s: Bytes, m: Matcher, b: Byte)
    requires Follows(s, m) && NameOf(m.h) != ""
    ensures Follows(s + [b], FieldChar(m, b))
  {
    assert m.index == |s| - 1 && |s| < |NameOf(m.h)| && Pre(s, NameOf(m.h));
    assert m.h == MatchConnection || m.h == MatchContentLength ==> |s| > 3;
    MatchesChar(m, b);
    PreStep(s, b, NameOf(m.h));
    hide Pre, Token, NameOf, DoneOf, FieldChar, Follows, NoName;
    if Token(b) != NameOf(m.h)[|s|] as int {
      NoOther(s, b, m.h);
      NoneFollows(s + [b], |s|);
    } else if |s| == |NameOf(m.h)| - 1 {
      DoneFollows(s + [b], m.h, |s|);
    } else {
      GoesOnFollows(s + [b], m.h);
    }
  }

  lemma NoneFollows(s: Bytes, i: nat)
    requires s != [] && NoName(s)
    ensures Follows(s, Matcher(General, i))
  {
  }

  /** After a whole name, and where no name fits. */
  lemma FollowsEnd(s: Bytes, m: Matcher, b: Byte)
    requires Follows(s, m) && NameOf(m.h) == "" && m.h != C && m.h != CO && m.h != CON && Token(b) != 0
    ensures Follows(s + [b], FieldChar(m, b))
  {
    PreStep(s, b, "connection");
    PreStep(s, b, "content-length");
    PreStep(s, b, "proxy-connection");
    PreStep(s, b, "transfer-encoding");
    PreStep(s, b, "upgrade");
    Heads(s);
    assert Token(SP) == 0;
    hide Pre, Token;
  }

  lemma {:induction false} NamesSplit(m: Matcher, s: Bytes, b: Byte)
    ensures Names(m, s + [b]) == FieldChar(Names(m, s), b)
    decreases |s|
  {
    hide FieldChar;
    if s == [] {
      assert ([] + [b])[1..] == [];
    } else {
      assert (s + [b])[0] == s[0] && (s + [b])[1..] == s[1..] + [b];
      NamesSplit(FieldChar(m, s[0]), s[1..], b);
    }
  }

  predicate IsName(s: Bytes)
  {
    s != [] && forall i :: 0 <= i < |s| ==> Token(s[i]) != 0
  }

  lemma {:induction false} NameFollows(s: Bytes)
    requires IsName(s)
    ensures Follows(s, NameRead(s))
    decreases |s|
  {
    hide FieldChar, Follows, Token;
    if |s| == 1 {
      StartFollows(s[0]);
      assert s == [s[0]];
    } else {
      var t, b := s[..|s| - 1], s[|s| - 1];
      NameFollows(t);
      assert s == t + [b] && s[1..] == t[1..] + [b];
      NamesSplit(Matcher(StartState(Token(s[0])), 0), t[1..], b);
      FollowsOn(t, NameRead(t), b);
    }
  }

  lemma FollowsOn(s: Bytes, m: Matcher, b: Byte)
    requires Follows(s, m) && Token(b) != 0
    ensures Follows(s + [b], FieldChar(m, b))
  {
    hide Follows, FieldChar, Token;
    if m.h == C || m.h == CO || m.h == CON {
      FollowsCon(s, m, b);
    } else if NameOf(m.h) != "" {
      FollowsMatch(s, m, b);
    } else {
      FollowsEnd(s, m, b);
    }
  }

  /** The parser recognises exactly these names, in any case. */
  lemma NameRecognised(s: Bytes)
    requires IsName(s)
    ensures RoleIn(NameRead(s).h) == RoleOf(s) && FieldMatcher(NameRead(s).h)
  {
    NameFollows(s);
    FollowsRole(s, NameRead(s));
    hide NameRead;
  }

  lemma SpellsIs(s: Bytes, name: string)
    requires IsName(s)
    ensures Spells(s, name) <==> Spelled(s, name)
  {
    hide Token;
  }

  lemma FollowsRole(s: Bytes, m: Matcher)
    requires IsName(s) && Follows(s, m)
    ensures RoleIn(m.h) == RoleOf(s) && FieldMatcher(m.h)
  {
    assert s != [];
    hide Token, Pre, Spells, IsName;
    SpellsIs(s, "connection");
    SpellsIs(s, "proxy-connection");
    SpellsIs(s, "content-length");
    SpellsIs(s, "transfer-encoding");
    SpellsIs(s, "upgrade");
    Heads(s);
  }

  // ---- Values ----

  /** The value `chunked`, in any case, and spaces. */
  predicate SaysChunked(s: Bytes)
  {
    |s| >= 7 && SpellsValue(s[..7], CHUNKED) && Spaces(s[7..])
  }

  /** How many digits a value begins with. */
  function DigitRun(s: Bytes): (n: nat)
    ensures n <= |s| && (forall i :: 0 <= i < n ==> IsNum(s[i])) && (n < |s| ==> !IsNum(s[n]))
  {
    if s == [] || !IsNum(s[0]) then 0 else 1 + DigitRun(s[1..])
  }

  /** A number that is not too large, and spaces. */
  predicate SaysLength(s: Bytes)
  {
    DigitRun(s) > 0 && Fits(0, s[..DigitRun(s)], false, DEC_LIMIT) && Spaces(s[DigitRun(s)..])
  }

  /** What a field does: it is refused, or changes flags and length. */
  datatype Effect = Refused | Effect(flags: Flags, length: nat)

  function Meaning(role: Role, f: Flags, length: nat, s: Bytes): Effect
  {
    match role
    case Unknown => Effect(f, length)
    case ConnectionRole => Effect(Noted(f, Options(s, First)), length)
    case UpgradeRole => Effect(if s == [] then f else f.(upgrade := true), length)
    case EncodingRole => Effect(if SaysChunked(s) then f.(chunked := true) else f, length)
    case LengthRole =>
      if f.contentLength || !SaysLength(s) then Refused
      else Effect(f.(contentLength := true), Number(0, s[..DigitRun(s)], false))
  }

  /** A value that is not empty, from its first character on. */
  function ValueRead(h: HState, f: Flags, length: nat, s: Bytes): ValueStep
    requires s != []
  {
    Values(ValueEntry(h, f, length, s[0]), s[1..])
  }

  ghost predicate Means(v: ValueStep, e: Effect)
  {
    if v.BadValue? then e.Refused? else e == Effect(Finished(v.m.h, v.flags), v.length)
  }

  lemma {:induction false} ChunkedTailRead(i: nat, f: Flags, length: nat, s: Bytes)
    requires i < 6
    ensures var v := Values(ValueStep(Matcher(MatchChunked, i), f, length), s);
            && v.ValueStep? && v.flags == f && v.length == length && Plain(v.m.h, v.m.h == ChunkedValue)
            && (v.m.h == ChunkedValue <==> |s| >= 6 - i && Tail(s, i) && Spaces(s[6 - i..]))
    decreases |s|
  {
    hide Lower;
    if s != [] {
      ChunkedChar(i, f, length, s[0]);
      hide ValueChar;
      if Lower(s[0]) != CHUNKED[i + 1] as int {
        IsDeaf(Matcher(General, i + 1), f, length, s[1..]);
      } else if i == 5 {
        ChunkedEnd(f, length, s[1..]);
      } else {
        ChunkedTailRead(i + 1, f, length, s[1..]);
        TailOn(s, i);
      }
    }
  }

  /** The next bytes are those of `chunked` after character `i`. */
  predicate Tail(s: Bytes, i: nat)
    requires i < 6 && |s| >= 6 - i
  {
    forall j :: 0 <= j < 6 - i ==> Lower(s[j]) == CHUNKED[i + 1 + j] as int
  }

  lemma TailOn(s: Bytes, i: nat)
    requires i < 5 && s != [] && Lower(s[0]) == CHUNKED[i + 1] as int
    ensures |s| >= 6 - i ==> (Tail(s, i) <==> Tail(s[1..], i + 1)) && s[6 - i..] == s[1..][5 - i..]
  {
    hide Lower;
    if |s| >= 6 - i && Tail(s[1..], i + 1) {
      forall j | 0 <= j < 6 - i
        ensures Lower(s[j]) == CHUNKED[i + 1 + j] as int
      {
        assert j > 0 ==> s[j] == s[1..][j - 1];
      }
    }
  }

  /** The matcher has found "chunked", or nothing that sets a flag. */
  predicate Plain(h: HState, chunked: bool)
  {
    if chunked then h == ChunkedValue else h == General || h == MatchChunked
  }

  lemma ChunkedChar(i: nat, f: Flags, length: nat, b: Byte)
    requires i < 6
    ensures ValueChar(Matcher(MatchChunked, i), f, length, b) ==
            ValueStep(Matcher(if Lower(b) != CHUNKED[i + 1] as int then General else if i == 5 then ChunkedValue else MatchChunked, i + 1), f, length)
  {
    hide Lower;
  }

  lemma {:induction false} ChunkedEnd(f: Flags, length: nat, s: Bytes)
    ensures Values(ValueStep(Matcher(ChunkedValue, 6), f, length), s) ==
            ValueStep(Matcher(if Spaces(s) then ChunkedValue else General, 6), f, length)
    decreases |s|
  {
    if s != [] {
      if s[0] == SP {
        ChunkedEnd(f, length, s[1..]);
        assert Spaces(s) <==> Spaces(s[1..]);
      } else {
        IsDeaf(Matcher(General, 6), f, length, s[1..]);
      }
    }
  }

  /** Only `chunked`, alone and in any case, makes a message chunked. */
  lemma EncodingRead(f: Flags, length: nat, s: Bytes)
    requires s != []
    ensures Means(ValueRead(TransferEncoding, f, length, s), Meaning(EncodingRole, f, length, s))
  {
    hide ValueChar, Lower, Options, Fits, Number;
    if Lower(s[0]) == 99 {
      ChunkedTailRead(0, f, length, s[1..]);
      ChunkedWhole(s);
    } else {
      IsDeaf(Matcher(General, 0), f, length, s[1..]);
      assert |s| >= 7 ==> s[..7][0] == s[0];
    }
  }

  lemma ChunkedWhole(s: Bytes)
    requires s != [] && Lower(s[0]) == 99
    ensures SaysChunked(s) <==> |s| >= 7 && Tail(s[1..], 0) && Spaces(s[1..][6..])
  {
    hide Lower;
    if |s| >= 7 {
      assert s[1..][6..] == s[7..];
      if Tail(s[1..], 0) {
        forall i | 0 <= i < 7
          ensures Lower(s[..7][i]) == CHUNKED[i] as int
        {
          assert i > 0 ==> s[i] == s[1..][i - 1];
        }
      }
    }
  }

  // ---- Lengths ----

  /** More characters of a number. */
  lemma {:induction false} NumberRead(i: nat, f: Flags, n: nat, s: Bytes)
    ensures var v, k := Values(ValueStep(Matcher(ContentLengthNum, i), f, n), s), DigitRun(s);
            if Fits(n, s[..k], false, DEC_LIMIT) && Spaces(s[k..])
            then v == ValueStep(Matcher(if k == |s| then ContentLengthNum else ContentLengthWs, i), f, Number(n, s[..k], false))
            else v == BadValue
    decreases |s|
  {
    var k := DigitRun(s);
    if s != [] {
      LengthChar(i, f, n, s[0]);
      hide ValueChar;
      if IsNum(s[0]) {
        assert s[..k][0] == s[0] && s[..k][1..] == s[1..][..k - 1] && s[k..] == s[1..][k - 1..];
        if n <= DEC_LIMIT {
          NumberRead(i, f, n * 10 + Digit(s[0]), s[1..]);
        }
      } else {
        assert s[..k] == [] && s[k..] == s;
        if s[0] == SP {
          SpacesRead(i, f, n, s[1..]);
          assert Spaces(s) <==> Spaces(s[1..]);
        }
      }
    }
  }

  lemma LengthChar(i: nat, f: Flags, n: nat, b: Byte)
    ensures ValueChar(Matcher(ContentLengthNum, i), f, n, b) ==
            if b == SP then ValueStep(Matcher(ContentLengthWs, i), f, n)
            else if !IsNum(b) || n > DEC_LIMIT then BadValue
            else ValueStep(Matcher(ContentLengthNum, i), f, n * 10 + Digit(b))
    ensures ValueChar(Matcher(ContentLengthWs, i), f, n, b) == if b == SP then ValueStep(Matcher(ContentLengthWs, i), f, n) else BadValue
  {
  }

  lemma {:induction false} SpacesRead(i: nat, f: Flags, n: nat, s: Bytes)
    ensures Values(ValueStep(Matcher(ContentLengthWs, i), f, n), s) ==
            if Spaces(s) then ValueStep(Matcher(ContentLengthWs, i), f, n) else BadValue
    decreases |s|
  {
    if s != [] {
      LengthChar(i, f, n, s[0]);
      hide ValueChar;
      if s[0] == SP {
        SpacesRead(i, f, n, s[1..]);
        assert Spaces(s) <==> Spaces(s[1..]);
      }
    }
  }

  /** A length is digits and spaces, is not too large, and is the only one; it is stored exactly. */
  lemma LengthRead(f: Flags, length: nat, s: Bytes)
    requires s != []
    ensures Means(ValueRead(ContentLength, f, length, s), Meaning(LengthRole, f, length, s))
  {
    hide ValueChar, Options;
    var k := DigitRun(s);
    if IsNum(s[0]) && !f.contentLength {
      NumberRead(0, f.(contentLength := true), s[0] - 48, s[1..]);
      assert s[..k][0] == s[0] && s[..k][1..] == s[1..][..k - 1] && s[k..] == s[1..][k - 1..];
      assert Digit(s[0]) == s[0] - 48;
    }
  }

  lemma UnknownRead(h: HState, f: Flags, length: nat, s: Bytes)
    requires s != [] && FieldMatcher(h) && (RoleIn(h) == Unknown || RoleIn(h) == UpgradeRole)
    ensures Means(ValueRead(h, f, length, s), Meaning(RoleIn(h), f, length, s))
  {
    IsDeaf(Matcher(General, 0), f, length, s[1..]);
    IsDeaf(Matcher(General, 0), f.(upgrade := true), length, s[1..]);
    hide ValueChar, Values;
  }

  lemma ConnectionRead(f: Flags, length: nat, s: Bytes)
    requires s != [] && HeaderChars(s[1..])
    ensures Means(ValueRead(HState.Connection, f, length, s), Meaning(ConnectionRole, f, length, s))
  {
    OptionsRead(First, Matcher(General, 0), f, length, s);
    hide Values, ValueEntry, Options;
  }

  /** The value of a field means exactly what its name and its elements say. */
  lemma FieldMeans(name: Bytes, f: Flags, length: nat, s: Bytes)
    requires IsName(name) && s != [] && HeaderChars(s[1..])
    ensures Means(ValueRead(NameRead(name).h, f, length, s), Meaning(RoleOf(name), f, length, s))
  {
    hide RoleOf, NameRead, ValueRead, Meaning, Means, HeaderChars;
    NameRecognised(name);
    var h := NameRead(name).h;
    match RoleIn(h) {
      case ConnectionRole => ConnectionRead(f, length, s);
      case LengthRole => LengthRead(f, length, s);
      case EncodingRole => EncodingRead(f, length, s);
      case _ => UnknownRead(h, f, length, s);
    }
  }
}
