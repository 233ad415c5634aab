/** What the parser makes of the options of a Connection header: section 6.1 of RFC 7230, as far as it goes. */
module HttpOptions {
  import opened Bits
  import opened HttpMachine
  import opened HttpHeaders

  const COMMA: Byte := 44

  // ---- The options the parser knows ----

  datatype Word = KeepAlive | Close | ConnUpgrade

  function Spelling(w: Word): (s: string)
    ensures |s| >= 5
  {
    match w
    case KeepAlive => "keep-alive"
    case Close => "close"
    case ConnUpgrade => "upgrade"
  }

  function Matching(w: Word): HState
  {
    match w
    case KeepAlive => MatchKeepAlive
    case Close => MatchClose
    case ConnUpgrade => MatchConnUpgrade
  }

  function Matched(w: Word): HState
  {
    match w
    case KeepAlive => KeepAliveValue
    case Close => CloseValue
    case ConnUpgrade => ConnUpgradeValue
  }

  function Noted(f: Flags, words: set<Word>): Flags
  {
    f.(keepAlive := f.keepAlive || KeepAlive in words, close := f.close || Close in words,
       connUpgrade := f.connUpgrade || ConnUpgrade in words)
  }

  // ---- Elements of a value ----

  function FirstComma(s: Bytes): (n: nat)
    ensures n <= |s| && (forall i :: 0 <= i < n ==> s[i] != COMMA) && (n < |s| ==> s[n] == COMMA)
  {
    if s == [] || s[0] == COMMA then 0 else 1 + FirstComma(s[1..])
  }

  function DropSpaces(s: Bytes): (t: Bytes)
    ensures |t| <= |s|
  {
    if s != [] && s[0] == SP then DropSpaces(s[1..]) else s
  }

  predicate Begins(s: Bytes, name: string)
  {
    |s| <= |name| && forall i :: 0 <= i < |s| ==> Lower(s[i]) == name[i] as int
  }

  /** The word, in any case, and spaces. */
  predicate Says(s: Bytes, w: Word)
  {
    |s| >= |Spelling(w)| && Begins(s[..|Spelling(w)|], Spelling(w)) && Spaces(s[|Spelling(w)|..])
  }

  function Said(t: Bytes): set<Word>
  {
    set w: Word | Says(t, w)
  }

  /** The beginning of a word, but not all of it. */
  predicate CutShort(s: Bytes)
  {
    s != [] && exists w: Word :: |s| < |Spelling(w)| && Begins(s, Spelling(w))
  }

  /** How an element is read: as the first of a value, as a later one, or passed over. */
  datatype Mood = First | Later | Passing

  /**
   * The words the parser notes, element by element. It stops at an element that is empty or does not begin
   * like a token, unless it is the first; and it passes over the element after one that is cut short.
   */
  function Options(s: Bytes, mood: Mood): set<Word>
    decreases |s|
  {
    var n := FirstComma(s);
    var t := if mood == Later then DropSpaces(s[..n]) else s[..n];
    var words := Said(t);
    if n == |s| then if mood == Passing then {} else words
    else if mood == Passing then Options(s[n + 1..], Later)
    else if words != {} then words + Options(s[n + 1..], Later)
    else if CutShort(t) || (mood == First && t == []) then Options(s[n + 1..], Passing)
    else if mood == Later && (t == [] || Token(Lower(t[0])) == 0) then {}
    else Options(s[n + 1..], Later)
  }

  // ---- How the matcher reads an element ----

  /** More characters of a value. */
  function Values(v: ValueStep, s: Bytes): ValueStep
    decreases |s|
  {
    if v.BadValue? || s == [] then v else Values(ValueChar(v.m, v.flags, v.length, s[0]), s[1..])
  }

  lemma {:induction false} ValuesSplit(v: ValueStep, a: Bytes, b: Bytes)
    ensures Values(v, a + b) == Values(Values(v, a), b)
    decreases |a|
  {
    hide ValueChar;
    if a == [] || v.BadValue? {
      assert a == [] ==> a + b == b;
    } else {
      assert (a + b)[0] == a[0] && (a + b)[1..] == a[1..] + b;
      ValuesSplit(ValueChar(v.m, v.flags, v.length, a[0]), a[1..], b);
    }
  }

  predicate NoComma(s: Bytes)
  {
    forall i :: 0 <= i < |s| ==> s[i] != COMMA
  }

  lemma {:induction false} PassesOver(m: Matcher, f: Flags, length: nat, s: Bytes)
    requires m.h == ConnToken && NoComma(s)
    ensures Values(ValueStep(m, f, length), s) == ValueStep(m, f, length)
    decreases |s|
  {
    if s != [] {
      PassesOver(m, f, length, s[1..]);
    }
  }

  lemma {:induction false} IsDeaf(m: Matcher, f: Flags, length: nat, s: Bytes)
    requires m.h == General
    ensures Values(ValueStep(m, f, length), s) == ValueStep(m, f, length)
    decreases |s|
  {
    if s != [] {
      IsDeaf(m, f, length, s[1..]);
    }
  }

  lemma {:induction false} SkipsSpaces(f: Flags, length: nat, s: Bytes)
    ensures var v := ValueStep(Matcher(TokenStart, 0), f, length); Values(v, s) == Values(v, DropSpaces(s))
    decreases |s|
  {
    if s != [] && s[0] == SP {
      SkipsSpaces(f, length, s[1..]);
    }
  }

  /** After a whole word only spaces may follow. */
  lemma {:induction false} AfterWord(w: Word, i: nat, f: Flags, length: nat, s: Bytes)
    requires NoComma(s)
    ensures var v := Values(ValueStep(Matcher(Matched(w), i), f, length), s);
            v == ValueStep(Matcher(if Spaces(s) then Matched(w) else ConnToken, i), f, length)
    decreases |s|
  {
    if s != [] {
      if s[0] == SP {
        AfterWord(w, i, f, length, s[1..]);
        assert Spaces(s) <==> Spaces(s[1..]);
      } else {
        PassesOver(Matcher(ConnToken, i), f, length, s[1..]);
      }
    }
  }

  /** A character of a word. */
  lemma WordChar(w: Word, i: nat, f: Flags, length: nat, b: Byte)
    requires i < |Spelling(w)| - 1
    ensures ValueChar(Matcher(Matching(w), i), f, length, b) ==
            ValueStep(Matcher(if Lower(b) != Spelling(w)[i + 1] as int then ConnToken
                              else if i == |Spelling(w)| - 2 then Matched(w) else Matching(w), i + 1), f, length)
  {
    hide Lower;
  }

  /** The rest of a word from character `i` on. */
  predicate SaysRest(s: Bytes, w: Word, i: nat)
    requires i < |Spelling(w)|
  {
    var r := Spelling(w)[i + 1..];
    |s| >= |r| && Begins(s[..|r|], r) && Spaces(s[|r|..])
  }

  lemma RestBad(w: Word, i: nat, s: Bytes)
    requires i < |Spelling(w)| - 1 && s != [] && Lower(s[0]) != Spelling(w)[i + 1] as int
    ensures !SaysRest(s, w, i) && !Begins(s, Spelling(w)[i + 1..])
  {
    hide Lower, Spaces, Spelling;
    var r := Spelling(w)[i + 1..];
    assert |s| >= |r| ==> s[..|r|][0] == s[0];
  }

  lemma RestLast(w: Word, i: nat, s: Bytes)
    requires i == |Spelling(w)| - 2 && s != [] && Lower(s[0]) == Spelling(w)[i + 1] as int
    ensures SaysRest(s, w, i) <==> Spaces(s[1..])
  {
    hide Lower, Spaces, Spelling;
  }

  lemma RestNone(w: Word, i: nat)
    requires i < |Spelling(w)| - 1
    ensures Begins([], Spelling(w)[i + 1..])
  {
  }

  lemma {:induction false} WordRead(w: Word, i: nat, f: Flags, length: nat, s: Bytes)
    requires i < |Spelling(w)| - 1 && NoComma(s)
    ensures var r, v := Spelling(w)[i + 1..], Values(ValueStep(Matcher(Matching(w), i), f, length), s);
            && v.ValueStep? && v.flags == f && v.length == length
            && (if |s| < |r| && Begins(s, r) then v.m == Matcher(Matching(w), i + |s|)
                else v.m.h == if SaysRest(s, w, i) then Matched(w) else ConnToken)
    decreases |s|
  {
    hide ValueChar, Lower, Spelling, Spaces, SaysRest, Begins, Matching, Matched;
    if s == [] {
      RestNone(w, i);
    } else {
      WordChar(w, i, f, length, s[0]);
      var t := s[1..];
      if Lower(s[0]) != Spelling(w)[i + 1] as int {
        RestBad(w, i, s);
        PassesOver(Matcher(ConnToken, i + 1), f, length, t);
      } else if i == |Spelling(w)| - 2 {
        RestLast(w, i, s);
        AfterWord(w, i + 1, f, length, t);
      } else {
        WordRead(w, i + 1, f, length, t);
        RestOn(w, i, s);
      }
    }
  }

  lemma RestOn(w: Word, i: nat, s: Bytes)
    requires i < |Spelling(w)| - 2 && s != [] && Lower(s[0]) == Spelling(w)[i + 1] as int
    ensures SaysRest(s, w, i) <==> SaysRest(s[1..], w, i + 1)
    ensures Begins(s, Spelling(w)[i + 1..]) <==> Begins(s[1..], Spelling(w)[i + 2..])
  {
    hide Lower, Spelling;
    var n := |Spelling(w)| - i - 1;
    BeginsOn(s, Spelling(w)[i + 1..]);
    assert Spelling(w)[i + 1..][1..] == Spelling(w)[i + 2..];
    if |s| >= n {
      BeginsOn(s[..n], Spelling(w)[i + 1..]);
      assert s[..n][1..] == s[1..][..n - 1] && s[n..] == s[1..][n - 1..];
    }
  }

  lemma BeginsOn(s: Bytes, name: string)
    requires s != [] && name != [] && Lower(s[0]) == name[0] as int
    ensures Begins(s, name) <==> Begins(s[1..], name[1..])
  {
    hide Lower;
    if Begins(s[1..], name[1..]) {
      forall i | 0 <= i < |s|
        ensures Lower(s[i]) == name[i] as int
      {
        assert i > 0 ==> s[i] == s[1..][i - 1] && name[i] == name[1..][i - 1];
      }
    }
  }

  // ---- Elements ----

  /** The word that begins with a character. */
  predicate Starts(w: Word, b: Byte)
  {
    Lower(b) == Spelling(w)[0] as int
  }

  /** The first character of an element, at the start of a value or after a comma. */
  function Opened(mood: Mood, f: Flags, length: nat, b: Byte): ValueStep
    requires mood != Passing
  {
    if mood == First then ValueEntry(HState.Connection, f, length, b) else ValueChar(Matcher(TokenStart, 0), f, length, b)
  }

  lemma OpensWord(mood: Mood, f: Flags, length: nat, b: Byte, w: Word)
    requires mood != Passing && Starts(w, b)
    ensures Opened(mood, f, length, b) == ValueStep(Matcher(Matching(w), 0), f, length)
  {
    hide Lower, Token;
  }

  lemma OpensOther(mood: Mood, f: Flags, length: nat, b: Byte)
    requires mood != Passing && (forall w: Word :: !Starts(w, b)) && (mood == Later ==> b != SP && IsHeaderChar(b))
    ensures Opened(mood, f, length, b) ==
            ValueStep(Matcher(if mood == Later && Token(Lower(b)) == 0 then General else ConnToken, 0), f, length)
  {
    assert !Starts(KeepAlive, b) && !Starts(Close, b) && !Starts(ConnUpgrade, b);
    if mood == Later {
      LowerBlank(b);
    }
    hide Lower, Token;
  }

  lemma LowerBlank(b: Byte)
    requires b != SP && IsHeaderChar(b)
    ensures Lower(b) != SP && Lower(b) != HT
  {
  }

  /** What an element leaves behind. */
  ghost predicate Left(mood: Mood, t: Bytes, m: Matcher)
    requires t != []
  {
    && (forall w: Word :: Says(t, w) ==> m.h == Matched(w))
    && (forall w: Word :: |t| < |Spelling(w)| && Begins(t, Spelling(w)) ==> m == Matcher(Matching(w), |t| - 1))
    && ((forall w: Word :: !Says(t, w)) && !CutShort(t) ==> m.h == if mood == Later && Token(Lower(t[0])) == 0 then General else ConnToken)
  }

  lemma ElementRead(mood: Mood, f: Flags, length: nat, t: Bytes)
    requires mood != Passing && t != [] && NoComma(t[1..]) && (mood == Later ==> t[0] != SP && IsHeaderChar(t[0]))
    ensures var v := Values(Opened(mood, f, length, t[0]), t[1..]);
            v.ValueStep? && v.flags == f && v.length == length && Left(mood, t, v.m)
  {
    hide ValueChar, ValueEntry, Lower, Token, IsHeaderChar, Opened;
    if w: Word :| Starts(w, t[0]) {
      OpensWord(mood, f, length, t[0], w);
      WordRead(w, 0, f, length, t[1..]);
      WordLeft(mood, t, w, Values(ValueStep(Matcher(Matching(w), 0), f, length), t[1..]).m);
    } else {
      OpensOther(mood, f, length, t[0]);
      if mood == Later && Token(Lower(t[0])) == 0 {
        IsDeaf(Matcher(General, 0), f, length, t[1..]);
      } else {
        PassesOver(Matcher(ConnToken, 0), f, length, t[1..]);
      }
      OtherLeft(t);
    }
  }

  /** Whether an element says a word or is cut short depends on the word it begins like. */
  lemma OnlyWord(t: Bytes, w: Word)
    requires t != [] && (Says(t, w) || Begins(t, Spelling(w)))
    ensures Starts(w, t[0])
  {
    hide Lower;
    assert Says(t, w) ==> t[..|Spelling(w)|][0] == t[0];
  }

  lemma OtherLeft(t: Bytes)
    requires t != [] && forall w: Word :: !Starts(w, t[0])
    ensures !CutShort(t) && forall w: Word :: !Says(t, w) && !Begins(t, Spelling(w))
  {
    hide Says, Begins, Starts;
    forall w: Word
      ensures !Says(t, w) && !Begins(t, Spelling(w))
    {
      if Says(t, w) || Begins(t, Spelling(w)) {
        OnlyWord(t, w);
      }
    }
  }

  lemma StartsOne(b: Byte, w: Word, w': Word)
    requires Starts(w, b) && Starts(w', b)
    ensures w == w'
  {
    hide Lower;
  }

  lemma WordLeft(mood: Mood, t: Bytes, w: Word, m: Matcher)
    requires mood != Passing && t != [] && Starts(w, t[0])
    requires var r, s := Spelling(w)[1..], t[1..];
             if |s| < |r| && Begins(s, r) then m == Matcher(Matching(w), |s|)
             else m.h == if SaysRest(s, w, 0) then Matched(w) else ConnToken
    ensures Left(mood, t, m)
  {
    var n := |Spelling(w)|;
    BeginsOn(t, Spelling(w));
    if |t| >= n {
      BeginsOn(t[..n], Spelling(w));
      assert t[..n][1..] == t[1..][..n - 1] && t[n..] == t[1..][n - 1..];
    }
    assert Says(t, w) <==> SaysRest(t[1..], w, 0);
    StartsToken(t[0], w);
    forall w': Word | Says(t, w') || Begins(t, Spelling(w'))
      ensures w' == w
    {
      OnlyWord(t, w');
      StartsOne(t[0], w, w');
    }
    hide Says, Begins, SaysRest, Spaces, Lower, Token;
  }

  lemma StartsToken(b: Byte, w: Word)
    requires Starts(w, b)
    ensures Token(Lower(b)) != 0
  {
    hide Lower;
  }

  // ---- Whole values ----

  lemma SaidOne(t: Bytes, w: Word)
    requires Says(t, w)
    ensures t != [] && Said(t) == {w}
  {
    forall w': Word | Says(t, w')
      ensures w' == w
    {
      OnlyWord(t, w);
      OnlyWord(t, w');
      StartsOne(t[0], w, w');
    }
    hide Says;
  }

  lemma NotBoth(t: Bytes, w: Word)
    requires CutShort(t)
    ensures !Says(t, w)
  {
    var w': Word :| |t| < |Spelling(w')| && Begins(t, Spelling(w'));
    if Says(t, w) {
      OnlyWord(t, w);
      OnlyWord(t, w');
      StartsOne(t[0], w, w');
    }
  }

  /** The comma after an element. */
  lemma AtComma(mood: Mood, t: Bytes, m: Matcher, f: Flags, length: nat)
    requires t != [] && Left(mood, t, m)
    ensures var v := ValueChar(m, f, length, COMMA);
            if Said(t) != {} then v == ValueStep(Matcher(TokenStart, 0), Noted(f, Said(t)), length)
            else if CutShort(t) then v == ValueStep(Matcher(ConnToken, |t|), f, length)
            else v == ValueStep(if mood == Later && Token(Lower(t[0])) == 0 then m else Matcher(TokenStart, 0), f, length)
  {
    hide ValueChar, Says, Begins, Token, Lower, Noted, Spelling, Matched, Matching;
    CommaOther(m.index, f, length);
    if w: Word :| Says(t, w) {
      SaidOne(t, w);
      CommaWord(w, m.index, f, length);
    } else if CutShort(t) {
      var w: Word :| |t| < |Spelling(w)| && Begins(t, Spelling(w));
      assert Said(t) == {};
      WordChar(w, |t| - 1, f, length, COMMA);
      CommaInNone(w, |t|);
    } else {
      assert Said(t) == {};
    }
  }

  lemma CommaWord(w: Word, i: nat, f: Flags, length: nat)
    ensures ValueChar(Matcher(Matched(w), i), f, length, COMMA) == ValueStep(Matcher(TokenStart, 0), Noted(f, {w}), length)
  {
  }

  lemma CommaOther(i: nat, f: Flags, length: nat)
    ensures ValueChar(Matcher(ConnToken, i), f, length, COMMA) == ValueStep(Matcher(TokenStart, 0), f, length)
    ensures ValueChar(Matcher(General, i), f, length, COMMA) == ValueStep(Matcher(General, i), f, length)
  {
  }

  lemma CommaInNone(w: Word, i: nat)
    requires i < |Spelling(w)|
    ensures Lower(COMMA) != Spelling(w)[i] as int
  {
  }

  lemma FinishedWord(w: Word, f: Flags)
    ensures Finished(Matched(w), f) == Noted(f, {w}) && Finished(Matching(w), f) == f
  {
  }

  lemma FinishedOther(f: Flags)
    ensures Finished(General, f) == f && Finished(ConnToken, f) == f && Finished(TokenStart, f) == f
  {
  }

  /** The end of a value after an element. */
  lemma AtEnd(mood: Mood, t: Bytes, m: Matcher, f: Flags)
    requires t != [] && Left(mood, t, m)
    ensures Finished(m.h, f) == Noted(f, Said(t))
  {
    hide Says, Begins, Token, Lower, Finished, Noted, Spelling, Matched, Matching;
    NotedTwice(f, {}, {});
    FinishedOther(f);
    if w: Word :| Says(t, w) {
      SaidOne(t, w);
      FinishedWord(w, f);
    } else if CutShort(t) {
      var w: Word :| |t| < |Spelling(w)| && Begins(t, Spelling(w));
      FinishedWord(w, f);
      assert Said(t) == {};
    } else {
      assert Said(t) == {};
    }
  }

  /** The beginning of a value, or of the rest of it. */
  function Reading(mood: Mood, m: Matcher, f: Flags, length: nat, s: Bytes): ValueStep
    requires mood == First ==> s != []
  {
    if mood == First then Values(Opened(First, f, length, s[0]), s[1..]) else Values(ValueStep(m, f, length), s)
  }

  predicate Ready(mood: Mood, m: Matcher, s: Bytes)
  {
    match mood
    case First => s != []
    case Later => m == Matcher(TokenStart, 0)
    case Passing => m.h == ConnToken
  }

  predicate HeaderChars(s: Bytes)
  {
    forall i :: 0 <= i < |s| ==> IsHeaderChar(s[i]) && s[i] != CR && s[i] != LF
  }

  /** The options of a value are those of its elements; no other flag and no length changes. */
  ghost predicate Reads(v: ValueStep, f: Flags, length: nat, words: set<Word>)
  {
    v.ValueStep? && v.length == length && Finished(v.m.h, v.flags) == Noted(f, words)
  }

  lemma NotedTwice(f: Flags, a: set<Word>, b: set<Word>)
    ensures Noted(Noted(f, a), b) == Noted(f, a + b) && Noted(f, {}) == f
  {
  }

  lemma {:induction false} SpacesDropped(s: Bytes)
    requires NoComma(s) && HeaderChars(s)
    ensures var t := DropSpaces(s); NoComma(t) && HeaderChars(t) && (t != [] ==> t[0] != SP)
  {
    if s != [] && s[0] == SP {
      SpacesDropped(s[1..]);
    }
  }

  /** The matcher at the end of the first element. */
  lemma ReadsElement(mood: Mood, f: Flags, length: nat, s: Bytes, n: nat, t: Bytes) returns (m: Matcher)
    requires mood != Passing && n == FirstComma(s) && t == (if mood == Later then DropSpaces(s[..n]) else s[..n]) && t != []
    requires if mood == First then HeaderChars(s[1..]) else HeaderChars(s)
    ensures Left(mood, t, m)
    ensures Reading(mood, Matcher(TokenStart, 0), f, length, s) == Values(ValueStep(m, f, length), s[n..])
  {
    hide ValueChar, ValueEntry, Left, IsHeaderChar;
    var v0 := ValueStep(Matcher(TokenStart, 0), f, length);
    if mood == Later {
      SpacesDropped(s[..n]);
    }
    ElementRead(mood, f, length, t);
    var v := Values(Opened(mood, f, length, t[0]), t[1..]);
    m := v.m;
    if mood == First {
      assert s[1..] == t[1..] + s[n..];
      ValuesSplit(Opened(First, f, length, s[0]), t[1..], s[n..]);
    } else {
      assert s == s[..n] + s[n..];
      ValuesSplit(v0, s[..n], s[n..]);
      SkipsSpaces(f, length, s[..n]);
    }
  }

  /** An element that is empty: the parser stops listening at the comma. */
  lemma ReadsNothing(f: Flags, length: nat, s: Bytes, n: nat)
    requires n == FirstComma(s) && DropSpaces(s[..n]) == []
    ensures var v := Values(ValueStep(Matcher(TokenStart, 0), f, length), s);
            v.ValueStep? && v.flags == f && v.length == length && (v.m.h == TokenStart || v.m.h == General)
  {
    var v0 := ValueStep(Matcher(TokenStart, 0), f, length);
    assert s == s[..n] + s[n..];
    ValuesSplit(v0, s[..n], s[n..]);
    SkipsSpaces(f, length, s[..n]);
    if n < |s| {
      assert ValueChar(v0.m, f, length, COMMA) == ValueStep(Matcher(General, 0), f, length);
      IsDeaf(Matcher(General, 0), f, length, s[n..][1..]);
    }
  }

  lemma ReadsPast(m: Matcher, f: Flags, length: nat, s: Bytes, n: nat)
    requires m.h == ConnToken && n == FirstComma(s)
    ensures Values(ValueStep(m, f, length), s) ==
            if n == |s| then ValueStep(m, f, length) else Values(ValueStep(Matcher(TokenStart, 0), f, length), s[n + 1..])
  {
    hide ValueChar;
    CommaOther(m.index, f, length);
    assert s == s[..n] + s[n..];
    ValuesSplit(ValueStep(m, f, length), s[..n], s[n..]);
    PassesOver(m, f, length, s[..n]);
    assert n < |s| ==> s[n..][1..] == s[n + 1..];
  }

  lemma ReadsComma(v: ValueStep, s: Bytes, n: nat)
    requires v.ValueStep? && n == FirstComma(s)
    ensures Values(v, s[n..]) == if n == |s| then v else Values(ValueChar(v.m, v.flags, v.length, COMMA), s[n + 1..])
  {
    hide ValueChar;
    assert n < |s| ==> s[n..][1..] == s[n + 1..];
  }

  lemma NothingSaid()
    ensures Said([]) == {} && !CutShort([])
  {
  }

  /** A value that begins with a comma. */
  lemma FirstIsComma(f: Flags, length: nat)
    ensures Opened(First, f, length, COMMA) == ValueStep(Matcher(ConnToken, 0), f, length)
  {
  }

  lemma DeafLeft(t: Bytes, m: Matcher)
    requires t != [] && Left(Later, t, m) && Said(t) == {} && !CutShort(t) && Token(Lower(t[0])) == 0
    ensures m.h == General
  {
    assert forall w: Word :: Says(t, w) ==> w in Said(t);
    hide Says, Begins, CutShort, Token, Lower;
  }

  /** The parser notes exactly the options of the value, as its elements say. */
  lemma {:induction false} OptionsRead(mood: Mood, m: Matcher, f: Flags, length: nat, s: Bytes)
    requires Ready(mood, m, s) && if mood == First then HeaderChars(s[1..]) else HeaderChars(s)
    ensures Reads(Reading(mood, m, f, length, s), f, length, Options(s, mood))
    decreases |s|
  {
    hide ValueChar, ValueEntry, Values, Noted, Finished, IsHeaderChar, Left, Says, Said, Begins, Lower, Token, CutShort, DropSpaces, Opened;
    FinishedOther(f);
    var n := FirstComma(s);
    var t := if mood == Later then DropSpaces(s[..n]) else s[..n];
    NotedTwice(f, {}, {});
    NothingSaid();
    if mood == Passing {
      ReadsPast(m, f, length, s, n);
      if n < |s| {
        OptionsRead(Later, Matcher(TokenStart, 0), f, length, s[n + 1..]);
      }
    } else if t != [] {
      var m1 := ReadsElement(mood, f, length, s, n, t);
      ReadsComma(ValueStep(m1, f, length), s, n);
      if n == |s| {
        AtEnd(mood, t, m1, f);
      } else {
        AtComma(mood, t, m1, f, length);
        if Said(t) != {} {
          OptionsRead(Later, Matcher(TokenStart, 0), Noted(f, Said(t)), length, s[n + 1..]);
          NotedTwice(f, Said(t), Options(s[n + 1..], Later));
        } else if CutShort(t) {
          OptionsRead(Passing, Matcher(ConnToken, |t|), f, length, s[n + 1..]);
        } else if mood == Later && Token(Lower(t[0])) == 0 {
          DeafLeft(t, m1);
          IsDeaf(m1, f, length, s[n + 1..]);
        } else {
          OptionsRead(Later, Matcher(TokenStart, 0), f, length, s[n + 1..]);
        }
      }
    } else if mood == Later {
      ReadsNothing(f, length, s, n);
    } else {
      FirstIsComma(f, length);
      OptionsRead(Passing, Matcher(ConnToken, 0), f, length, s[1..]);
    }
  }

  // ---- Lists of options ----

  predicate IsOption(o: Bytes)
  {
    o != [] && forall i :: 0 <= i < |o| ==> Token(o[i]) != 0
  }

  /** Options as they are usually written, with a comma and a space between them. */
  function Joined(opts: seq<Bytes>): Bytes
  {
    if opts == [] then [] else if |opts| == 1 then opts[0] else opts[0] + ([COMMA, SP] + Joined(opts[1..]))
  }

  /** An underscore after a comma ends all reading, because its lower case, as the parser computes it, is no token. */
  predicate Deafens(o: Bytes, mood: Mood)
  {
    mood == Later && o != [] && o[0] == 95
  }

  function MoodAfter(o: Bytes, mood: Mood): Mood
  {
    if mood != Passing && CutShort(o) then Passing else Later
  }

  /** Whether the parser listens at option `i`. */
  predicate Hears(opts: seq<Bytes>, mood: Mood, i: nat)
    requires i < |opts|
  {
    if i == 0 then mood != Passing
    else !Deafens(opts[0], mood) && Hears(opts[1..], MoodAfter(opts[0], mood), i - 1)
  }

  /** The text of options where `mood` begins to read it. */
  function TextOf(opts: seq<Bytes>, mood: Mood): Bytes
  {
    if mood == First then Joined(opts) else [SP] + Joined(opts)
  }

  lemma {:induction false} CommaAfter(a: Bytes, b: Bytes)
    requires NoComma(a)
    ensures FirstComma(a) == |a| && FirstComma(a + [COMMA] + b) == |a|
  {
    if a != [] {
      CommaAfter(a[1..], b);
      assert (a + [COMMA] + b)[1..] == a[1..] + [COMMA] + b;
    }
  }

  lemma OptionPlain(o: Bytes)
    requires IsOption(o)
    ensures NoComma(o) && NoComma([SP] + o) && DropSpaces(o) == o && DropSpaces([SP] + o) == o
    ensures Token(Lower(o[0])) == 0 <==> o[0] == 95
  {
    assert Token(COMMA) == 0 && Token(SP) == 0;
    assert Token(o[0]) != 0;
    assert ([SP] + o)[1..] == o;
  }

  lemma LaterText(opts: seq<Bytes>)
    ensures TextOf(opts, Later) == [SP] + Joined(opts)
  {
  }

  lemma TextParts(opts: seq<Bytes>, mood: Mood)
    requires opts != []
    ensures var o := if mood == First then opts[0] else [SP] + opts[0];
            TextOf(opts, mood) == if |opts| == 1 then o else o + [COMMA] + ([SP] + Joined(opts[1..]))
  {
    if |opts| > 1 {
      assert [COMMA, SP] + Joined(opts[1..]) == [COMMA] + ([SP] + Joined(opts[1..]));
    }
  }

  /** The first option is the first element. */
  lemma FirstElement(opts: seq<Bytes>, mood: Mood)
    requires opts != [] && IsOption(opts[0])
    ensures var s, n := TextOf(opts, mood), FirstComma(TextOf(opts, mood));
            && (mood == Later ==> DropSpaces(s[..n]) == opts[0]) && (mood == First ==> s[..n] == opts[0])
            && (n == |s| <==> |opts| == 1) && (|opts| > 1 ==> s[n + 1..] == TextOf(opts[1..], Later))
  {
    var o := if mood == First then opts[0] else [SP] + opts[0];
    var s, rest := TextOf(opts, mood), [SP] + Joined(opts[1..]);
    hide *;
    OptionPlain(opts[0]);
    TextParts(opts, mood);
    CommaAfter(o, rest);
    assert s[..|o|] == o && (|opts| > 1 ==> s[|o| + 1..] == rest);
    assert |opts| > 1 ==> TextOf(opts[1..], Later) == rest by {
      LaterText(opts[1..]);
    }
  }

  /** The parser listens to a word at some option. */
  ghost predicate Heard(opts: seq<Bytes>, mood: Mood, w: Word)
  {
    exists i :: 0 <= i < |opts| && Says(opts[i], w) && Hears(opts, mood, i)
  }

  lemma HeardFirst(opts: seq<Bytes>, mood: Mood, w: Word)
    requires opts != []
    ensures Heard(opts, mood, w) <==>
              (Says(opts[0], w) && mood != Passing)
              || (|opts| > 1 && !Deafens(opts[0], mood) && Heard(opts[1..], MoodAfter(opts[0], mood), w))
  {
    hide Says, Deafens, MoodAfter;
    if i :| 0 <= i < |opts| && Says(opts[i], w) && Hears(opts, mood, i) {
      assert i > 0 ==> opts[1..][i - 1] == opts[i];
    }
    if |opts| > 1 && !Deafens(opts[0], mood) && Heard(opts[1..], MoodAfter(opts[0], mood), w) {
      var i :| 0 <= i < |opts[1..]| && Says(opts[1..][i], w) && Hears(opts[1..], MoodAfter(opts[0], mood), i);
      assert Says(opts[i + 1], w) && Hears(opts, mood, i + 1);
    }
    if Says(opts[0], w) && mood != Passing {
      assert Hears(opts, mood, 0);
    }
  }

  lemma NotDeafening(o: Bytes)
    requires Said(o) != {} || CutShort(o)
    ensures o != [] && o[0] != 95
  {
    var w: Word :| Says(o, w) || (o != [] && |o| < |Spelling(w)| && Begins(o, Spelling(w)));
    if Says(o, w) {
      SaidOne(o, w);
    }
    OnlyWord(o, w);
    StartsToken(o[0], w);
  }

  lemma SaidIn(o: Bytes, w: Word)
    ensures w in Said(o) <==> Says(o, w)
  {
  }

  /** How reading goes on after an option, whatever follows. */
  lemma OptionMoods(o: Bytes, mood: Mood)
    requires IsOption(o)
    ensures Said(o) != {} ==> MoodAfter(o, mood) == Later && !Deafens(o, mood)
    ensures CutShort(o) ==> !Deafens(o, mood)
    ensures mood == Later ==> (Deafens(o, mood) <==> Token(Lower(o[0])) == 0)
  {
    OptionPlain(o);
    if Said(o) != {} || CutShort(o) {
      NotDeafening(o);
    }
    if w :| w in Said(o) {
      SaidIn(o, w);
      if CutShort(o) {
        NotBoth(o, w);
      }
    }
    hide Said, CutShort, Token, Lower;
  }

  lemma OptionsUnfold(s: Bytes, mood: Mood, o: Bytes)
    requires o != [] && var t := s[..FirstComma(s)]; (mood == Later ==> DropSpaces(t) == o) && (mood == First ==> t == o)
    ensures var n := FirstComma(s);
            Options(s, mood) ==
            if n == |s| then if mood == Passing then {} else Said(o)
            else if mood == Passing then Options(s[n + 1..], Later)
            else if Said(o) != {} then Said(o) + Options(s[n + 1..], Later)
            else if CutShort(o) then Options(s[n + 1..], Passing)
            else if mood == Later && Token(Lower(o[0])) == 0 then {}
            else Options(s[n + 1..], Later)
  {
    hide Said, CutShort, Token, Lower, DropSpaces, FirstComma;
  }

  /** An option that is read: whether it is a word, and how reading goes on. */
  lemma OptionRead(s: Bytes, mood: Mood, o: Bytes, w: Word)
    requires IsOption(o) && var t := s[..FirstComma(s)]; (mood == Later ==> DropSpaces(t) == o) && (mood == First ==> t == o)
    ensures w in Options(s, mood) <==>
              (Says(o, w) && mood != Passing)
              || (FirstComma(s) < |s| && !Deafens(o, mood) && w in Options(s[FirstComma(s) + 1..], MoodAfter(o, mood)))
  {
    assert o != [];
    hide Options, Says, Said, CutShort, Token, Lower, DropSpaces, FirstComma, IsOption;
    OptionMoods(o, mood);
    SaidIn(o, w);
    OptionsUnfold(s, mood, o);
  }

  /** A word is noted if and only if it is one of the options and the parser listens there. */
  lemma {:induction false} OptionsListed(opts: seq<Bytes>, mood: Mood, w: Word)
    requires opts != [] && forall i :: 0 <= i < |opts| ==> IsOption(opts[i])
    ensures w in Options(TextOf(opts, mood), mood) <==> Heard(opts, mood, w)
    decreases |opts|
  {
    hide Says, IsOption, Heard, Joined, Options, FirstComma, DropSpaces, Deafens;
    FirstElement(opts, mood);
    OptionRead(TextOf(opts, mood), mood, opts[0], w);
    HeardFirst(opts, mood, w);
    if |opts| > 1 {
      OptionsListed(opts[1..], MoodAfter(opts[0], mood), w);
    }
    hide CutShort;
  }

  /** Where no option is cut short but the last, and none begins with an underscore, every option counts. */
  lemma {:induction false} AllHeard(opts: seq<Bytes>, mood: Mood, i: nat)
    requires i < |opts| && mood != Passing && forall j :: 0 <= j < i ==> !CutShort(opts[j]) && !Deafens(opts[j], Later)
    ensures Hears(opts, mood, i)
    decreases i
  {
    hide CutShort;
    if i > 0 {
      assert !CutShort(opts[0]) && !Deafens(opts[0], Later);
      forall j | 0 <= j < i - 1
        ensures !CutShort(opts[1..][j]) && !Deafens(opts[1..][j], Later)
      {
        assert opts[1..][j] == opts[j + 1];
      }
      AllHeard(opts[1..], Later, i - 1);
    }
  }

  /** `k, close`: the letter is cut short, and the option after it goes unnoticed. */
  lemma CloseUnnoticed()
    ensures var opts: seq<Bytes> := [[107], [99, 108, 111, 115, 101]];
            (forall o <- opts :: IsOption(o)) && Says(opts[1], Close) && Close !in Options(Joined(opts), First)
  {
    var opts: seq<Bytes> := [[107], [99, 108, 111, 115, 101]];
    assert |Spelling(KeepAlive)| > 1 && Begins([107], Spelling(KeepAlive));
    assert CutShort(opts[0]) && !Says(opts[0], Close);
    assert opts[1..] == [opts[1]];
    assert Begins(opts[1][..5], Spelling(Close)) && Spaces(opts[1][5..]);
    OptionsListed(opts, First, Close);
    HeardFirst(opts, First, Close);
    HeardFirst(opts[1..], Passing, Close);
  }
}
