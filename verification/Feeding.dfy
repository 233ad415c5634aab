/** How one call of the decoder, which handles a run of bytes at a time, relates to the byte-wise machine. */
module Feeding {
  import opened Bits
  import opened HeaderTable
  import opened Encoding
  import opened Decoding
  import opened Reading
  import H = Huffman
  import P = PrefixInt

  // ---- Inputs C gives a meaning to ----

  datatype IntAt = NoInt | IntAt(d: Decoder)

  /** The state in which byte `b` is read as part of an integer, if it is. */
  function IntStart(d: Decoder, b: Byte): IntAt
  {
    if ReadsInt(d.phase) then IntAt(d)
    else if d.phase.CheckLen? then IntAt(ToLen(d, d.phase.part, b))
    else if d.phase.ReadHuff? || d.phase.ReadRaw? then
      if d.num.left == 0 then IntAt(ToLen(d, Value, b)) else NoInt
    else
      match OpcodeByte(d, b)
      case Again(d') => IntAt(d')
      case _ => NoInt
  }

  /** No integer in the input goes on for more than five continuation bytes. */
  ghost predicate Defined(c: Codec, d: Decoder, s: Bytes)
    requires Usable(c) && Valid(c, d)
    decreases |s|
  {
    s == [] ||
    (&& (var a := IntStart(d, s[0]);
         a.IntAt? ==> P.Resume(a.d.num.left, a.d.num.shift, s, IntBits(a.d)) != P.Undefined)
     && (OnByte(c, d, s[0]).Next? ==> Defined(c, OnByte(c, d, s[0]).d, s[1..])))
  }

  lemma {:induction false} DefinedSplit(c: Codec, d: Decoder, s: Bytes, n: nat)
    requires Usable(c) && Valid(c, d) && Defined(c, d, s) && n <= |s| && Run(c, d, s[..n]).Next?
    ensures Defined(c, Run(c, d, s[..n]).d, s[n..])
    decreases n
  {
    if n == 0 {
      assert s[0..] == s;
    } else {
      var a := s[..n];
      assert a[0] == s[0] && a[1..] == s[1..][..n - 1];
      var r := OnByte(c, d, s[0]);
      DefinedSplit(c, r.d, s[1..], n - 1);
      assert s[1..][n - 1..] == s[n..];
    }
  }

  /** Input the byte-wise machine accepts has a meaning in C. */
  lemma {:induction false} AcceptedDefined(c: Codec, d: Decoder, s: Bytes)
    requires Usable(c) && Valid(c, d) && Run(c, d, s).Next?
    ensures Defined(c, d, s)
    decreases |s|
  {
    hide P.Resume, IntDone, OpcodeByte, StringByte;
    if s != [] {
      var r := OnByte(c, d, s[0]);
      AcceptedDefined(c, r.d, s[1..]);
      if IntStart(d, s[0]).IntAt? {
        AcceptedInt(c, IntStart(d, s[0]).d, d, s);
      }
    }
  }

  /** An integer that begins with the next byte. */
  lemma AcceptedInt(c: Codec, a: Decoder, d: Decoder, s: Bytes)
    requires Usable(c) && Valid(c, d) && s != [] && IntStart(d, s[0]) == IntAt(a) && Run(c, d, s).Next?
    requires OnByte(c, d, s[0]).Next? && Defined(c, OnByte(c, d, s[0]).d, s[1..])
    ensures P.Resume(a.num.left, a.num.shift, s, IntBits(a)) != P.Undefined
  {
    hide P.Resume, P.Continue, IntDone;
    assert Valid(c, a) && ReadsInt(a.phase) && OnByte(c, d, s[0]) == IntByte(c, a, s[0]);
    P.ResumeStep(a.num.left, a.num.shift, s, IntBits(a));
    var o := P.Resume(a.num.left, a.num.shift, [s[0]], IntBits(a));
    if o.Incomplete? {
      var d1 := OnByte(c, d, s[0]).d;
      assert d1 == a.(num := Number(o.value, o.shift));
      assert s[1..] != [] ==> IntStart(d1, s[1]) == IntAt(d1);
      MoreDefined(o.value, o.shift, s[1..], IntBits(a));
    }
  }

  lemma MoreDefined(n: nat, shift: nat, s: Bytes, prefix: nat)
    requires 1 <= prefix <= 7 && 0 < n <= UINT32_MAX && (s != [] ==> P.Resume(n, shift, s, prefix) != P.Undefined)
    ensures P.Continue(n, shift, s) != P.Undefined
  {
  }

  // ---- Integers ----

  lemma {:induction false} DefinedAfterInt(c: Codec, d: Decoder, s: Bytes)
    requires Usable(c) && Valid(c, d) && ReadsInt(d.phase) && s != [] && Defined(c, d, s)
    requires var o := P.Resume(d.num.left, d.num.shift, s, IntBits(d)); o.Complete? && o.value <= IntMax(d)
    ensures var o := P.Resume(d.num.left, d.num.shift, s, IntBits(d));
            var r := IntDone(c, d.(num := Number(o.value, o.shift)));
            r.Next? ==> Defined(c, r.d, s[o.used..])
    decreases |s|
  {
    var o, o1 := P.Resume(d.num.left, d.num.shift, s, IntBits(d)), P.Resume(d.num.left, d.num.shift, [s[0]], IntBits(d));
    P.ResumeStep(d.num.left, d.num.shift, s, IntBits(d));
    hide Run, P.Continue, P.Decode;
    if o1.Incomplete? {
      var d1 := d.(num := Number(o1.value, o1.shift));
      var o' := P.Continue(o1.value, o1.shift, s[1..]);
      IncompleteAlone(o1.value, o1.shift, s[1..]);
      assert OnByte(c, d, s[0]) == Next(d1, []);
      DefinedAfterInt(c, d1, s[1..]);
      assert s[1..][o'.used..] == s[o.used..];
    }
  }

  lemma IncompleteAlone(n: nat, shift: nat, s: Bytes)
    requires P.Continue(n, shift, s).Complete?
    ensures s != []
  {
  }

  /** One call of `hd_inflate_read_len`: what the rest of the run amounts to. */
  lemma IntCase(c: Codec, d: Decoder, s: Bytes, o: P.Outcome)
    requires Usable(c) && Valid(c, d) && ReadsInt(d.phase) && s != [] && Defined(c, d, s)
    requires o == P.Resume(d.num.left, d.num.shift, s, IntBits(d))
    ensures o != P.Undefined
    ensures o == P.Overflow ==> Run(c, d, s) == Fail([])
    ensures o.Complete? || o.Incomplete? ==> (o.value > IntMax(d) ==> Run(c, d, s) == Fail([]))
    ensures o.Incomplete? && o.value <= IntMax(d) ==>
              Valid(c, d.(num := Number(o.value, o.shift))) && Run(c, d, s) == Next(d.(num := Number(o.value, o.shift)), [])
    ensures o.Complete? && o.value <= IntMax(d) ==>
              var r := IntDone(c, d.(num := Number(o.value, o.shift)));
              Keeps(c, r) && Run(c, d, s[..o.used]) == r
              && Run(c, d, s) == Then(c, r, s[o.used..]) && (r.Next? ==> Defined(c, r.d, s[o.used..]))
  {
    assert IntStart(d, s[0]) == IntAt(d);
    hide Run, P.Resume;
    RunInt(c, d, s);
    if o.Complete? && o.value <= IntMax(d) {
      DefinedAfterInt(c, d, s);
      var a := s[..o.used];
      P.ResumeUsed(d.num.left, d.num.shift, s, IntBits(d));
      RunInt(c, d, a);
      assert a[o.used..] == [];
      ThenNothing(c, AfterInt(c, d, o));
    }
  }

  // ---- Between two cases of the switch ----

  /** The bytes of a value are all there, but the header is not committed yet. */
  predicate Drained(d: Decoder)
  {
    (d.phase == ReadHuff(Value) || d.phase == ReadRaw(Value)) && d.num.left == 0
  }

  ghost predicate Settled(c: Codec, d: Decoder)
  {
    if Drained(d) then
      d.text.hstate < |c.huff.decode| && Size(d.ctx.table) <= d.ctx.max && HasName(d.ctx, d.lit)
      && (d.phase.ReadHuff? ==> d.text.haccept)
    else Valid(c, d)
  }

  /** What is still to happen, from a state between two cases. */
  function Go(c: Codec, d: Decoder, s: Bytes): Step
    requires Usable(c) && Settled(c, d)
  {
    if Drained(d) then Then(c, Commit(c, d), s) else Run(c, d, s)
  }

  ghost predicate DefinedGo(c: Codec, d: Decoder, s: Bytes)
    requires Usable(c) && Settled(c, d)
  {
    if Drained(d) then Defined(c, Commit(c, d).d, s) else Defined(c, d, s)
  }

  /** How a case ends: on to the next one, with a header, for want of input, or in an error. */
  datatype Switch = Continued | Emitting(e: Emitted) | Starved | Rejected

  /** `k` bytes of the input lead from `d` to `d'`, wherever the input ends after them. */
  ghost predicate Leads(c: Codec, d: Decoder, s: Bytes, d': Decoder, k: nat)
    requires Usable(c) && Settled(c, d)
  {
    k <= |s| && Settled(c, d') &&
    forall n :: k <= n <= |s| && (n > k || Drained(d') || n == |s|) ==> Go(c, d, s[..n]) == Go(c, d', s[k..n])
  }

  /** `s'` is what is left of `s`. */
  predicate Ends(s: Bytes, s': Bytes)
  {
    |s'| <= |s| && s' == s[|s| - |s'|..]
  }

  /**
   * The case took the decoder from `d` with input `s` to `d'` with input `s'`, as the byte-wise
   * machine would; a header is emitted with the last of the bytes before `s'`, whatever follows.
   */
  ghost predicate Does(c: Codec, d: Decoder, s: Bytes, w: Switch, d': Decoder, s': Bytes)
    requires Usable(c) && Settled(c, d)
  {
    match w
    case Continued => Ends(s, s') && Leads(c, d, s, d', |s| - |s'|) && DefinedGo(c, d', s')
    case Emitting(e) =>
      Ends(s, s') && Valid(c, d') && d'.phase == Opcode && Go(c, d, s[..|s| - |s'|]) == Next(d', [e]) && Defined(c, d', s')
    case Starved => Valid(c, d') && d'.phase != Opcode && d'.phase != Start && Go(c, d, s) == Next(d', []) && s' == []
    case Rejected => Go(c, d, s) == Fail([])
  }

  /** Bytes that lead to `d'` on their own do so whatever follows. */
  lemma LeadsAnyhow(c: Codec, d: Decoder, s: Bytes, d': Decoder, k: nat)
    requires Usable(c) && Valid(c, d) && !Drained(d) && Settled(c, d') && k <= |s| && Run(c, d, s[..k]) == Go(c, d', [])
    ensures Leads(c, d, s, d', k)
  {
    forall n | k <= n <= |s|
      ensures Go(c, d, s[..n]) == Go(c, d', s[k..n])
    {
      assert s[..n] == s[..k] + s[k..n];
      RunSplit(c, d, s[..k], s[k..n]);
      GoSplit(c, d', s[k..n]);
    }
  }

  lemma GoSplit(c: Codec, d: Decoder, s: Bytes)
    requires Usable(c) && Settled(c, d)
    ensures Keeps(c, Go(c, d, [])) && Go(c, d, s) == Then(c, Go(c, d, []), s)
  {
    if Drained(d) {
      ThenNothing(c, Commit(c, d));
    } else {
      PrependNothing(Run(c, d, s));
    }
  }

  /** States that treat the next byte alike. */
  lemma LeadsWithout(c: Codec, d: Decoder, s: Bytes, d': Decoder)
    requires Usable(c) && Valid(c, d) && Valid(c, d') && !Drained(d) && !Drained(d')
    requires s != [] && OnByte(c, d, s[0]) == OnByte(c, d', s[0])
    ensures Leads(c, d, s, d', 0)
  {
    forall n | 0 < n <= |s|
      ensures Go(c, d, s[..n]) == Go(c, d', s[0..n])
    {
      assert s[0..n] == s[..n] && s[..n][0] == s[0];
    }
  }

  lemma LeadsOn(c: Codec, d: Decoder, s: Bytes, d1: Decoder, k: nat, d2: Decoder, j: nat)
    requires Usable(c) && Settled(c, d) && Leads(c, d, s, d1, k) && Leads(c, d1, s[k..], d2, j)
    ensures Leads(c, d, s, d2, k + j)
  {
    hide Settled, Go;
    forall n | k + j <= n <= |s| && (n > k + j || Drained(d2) || n == |s|)
      ensures Go(c, d, s[..n]) == Go(c, d2, s[k + j..n])
    {
      assert s[k..][..n - k] == s[k..n] && s[k..][j..n - k] == s[k + j..n];
      if n == k && n < |s| {
        OnlyDrained(c, d1, s[k..], d2);
      }
    }
  }

  /** Without input, nothing leads to a complete value but a complete value. */
  lemma OnlyDrained(c: Codec, d: Decoder, s: Bytes, d': Decoder)
    requires Usable(c) && Settled(c, d) && Leads(c, d, s, d', 0) && Drained(d')
    ensures Drained(d)
  {
    assert s[..0] == [] && s[0..0] == [];
    assert Go(c, d, s[..0]) == Go(c, d', s[0..0]);
    GoSplit(c, d', []);
  }

  /** What the rest of the run amounts to. */
  lemma LeadsTo(c: Codec, d: Decoder, s: Bytes, d': Decoder, k: nat)
    requires Usable(c) && Settled(c, d) && Leads(c, d, s, d', k)
    ensures Settled(c, d') && Go(c, d, s) == Go(c, d', s[k..])
  {
    assert s[..|s|] == s && s[k..|s|] == s[k..];
  }

  lemma ContinuesAt(c: Codec, d: Decoder, s: Bytes, k: nat, d': Decoder)
    requires Usable(c) && Valid(c, d) && !Drained(d) && Settled(c, d') && k <= |s|
    requires Run(c, d, s[..k]) == Go(c, d', []) && DefinedGo(c, d', s[k..])
    ensures Does(c, d, s, Continued, d', s[k..])
  {
    LeadsAnyhow(c, d, s, d', k);
    hide Leads, Settled, Go, DefinedGo;
  }

  lemma EmitsAt(c: Codec, d: Decoder, s: Bytes, k: nat, d': Decoder, e: Emitted)
    requires Usable(c) && Valid(c, d) && !Drained(d) && Valid(c, d') && d'.phase == Opcode && k <= |s|
    requires Run(c, d, s[..k]) == Next(d', [e]) && Defined(c, d', s[k..])
    ensures Does(c, d, s, Emitting(e), d', s[k..])
  {
    hide Defined, Valid;
  }

  lemma GoesNowhere(c: Codec, d: Decoder)
    requires Usable(c) && Valid(c, d) && !Drained(d)
    ensures Settled(c, d) && Go(c, d, []) == Next(d, [])
  {
  }

  lemma OpcodeDoes(c: Codec, d: Decoder, s: Bytes)
    requires Usable(c) && Valid(c, d) && Between(d.phase) && s != [] && Defined(c, d, s)
    ensures var o := OpcodeByte(d, s[0]);
            && (o.Refused? ==> Does(c, d, s, Rejected, d, s))
            && (o.Again? ==> Does(c, d, s, Continued, o.d, s))
            && (o.Taken? ==> Does(c, d, s, Continued, o.d, s[1..]))
  {
    hide P.Resume, IntDone;
    var o := OpcodeByte(d, s[0]);
    if o.Again? {
      AgainDoes(c, d, s, o.d);
    } else if o.Taken? {
      assert OnByte(c, d, s[0]) == Next(o.d, []);
      assert s[..1] == [s[0]];
      RunOne(c, d, s[..1]);
      LeadsAnyhow(c, d, s, o.d, 1);
    } else {
      assert OnByte(c, d, s[0]) == Fail([]);
      assert Run(c, d, s) == Then(c, Fail([]), s[1..]);
    }
  }

  lemma AgainDoes(c: Codec, d: Decoder, s: Bytes, d': Decoder)
    requires Usable(c) && Valid(c, d) && Between(d.phase) && s != [] && Defined(c, d, s)
    requires OpcodeByte(d, s[0]) == Again(d')
    ensures Does(c, d, s, Continued, d', s)
  {
    hide P.Resume, IntDone;
    assert OnByte(c, d', s[0]) == OnByte(c, d, s[0]) && IntStart(d', s[0]) == IntStart(d, s[0]);
    LeadsWithout(c, d, s, d');
  }

  /** Looking at the Huffman flag consumes nothing. */
  lemma CheckLenDoes(c: Codec, d: Decoder, s: Bytes)
    requires Usable(c) && Valid(c, d) && d.phase.CheckLen? && s != [] && Defined(c, d, s)
    ensures Does(c, d, s, Continued, ToLen(d, d.phase.part, s[0]), s)
  {
    hide P.Resume, IntDone;
    var d' := ToLen(d, d.phase.part, s[0]);
    assert OnByte(c, d', s[0]) == OnByte(c, d, s[0]) && IntStart(d', s[0]) == IntStart(d, s[0]);
    LeadsWithout(c, d, s, d');
  }

  /** An integer is not complete or out of bounds. */
  lemma IntStops(c: Codec, d: Decoder, s: Bytes, o: P.Outcome)
    requires Usable(c) && Valid(c, d) && ReadsInt(d.phase) && s != [] && Defined(c, d, s)
    requires o == P.Resume(d.num.left, d.num.shift, s, IntBits(d))
    ensures o != P.Undefined
    ensures o == P.Overflow || o.value > IntMax(d) ==> Does(c, d, s, Rejected, d, s)
    ensures o.Incomplete? && o.value <= IntMax(d) ==> Does(c, d, s, Starved, d.(num := Number(o.value, o.shift)), [])
  {
    IntCase(c, d, s, o);
    hide Run, P.Resume, Defined;
  }

  /** An integer is complete. */
  lemma IntDoes(c: Codec, d: Decoder, s: Bytes, o: P.Outcome)
    requires Usable(c) && Valid(c, d) && ReadsInt(d.phase) && s != [] && Defined(c, d, s)
    requires o == P.Resume(d.num.left, d.num.shift, s, IntBits(d)) && o.Complete? && o.value <= IntMax(d)
    ensures var d1, rest := d.(num := Number(o.value, o.shift)), s[o.used..];
            && (d.phase == ReadTableSize ==>
                  Does(c, d, s, Continued, d1.(ctx := Resized(d.ctx, o.value), phase := Start), rest))
            && (d.phase == ReadIndex && o.value == 0 ==> Does(c, d, s, Rejected, d, s))
            && (d.phase == ReadIndex && o.value > 0 && d.lit.op == OpIndexed ==>
                  Does(c, d, s, Emitting(Emitted(At(c.dict, d.ctx.table, o.value - 1), false)),
                       d1.(lit := d.lit.(index := o.value - 1), phase := Opcode), rest))
            && (d.phase == ReadIndex && o.value > 0 && d.lit.op != OpIndexed ==>
                  Does(c, d, s, Continued, d1.(lit := d.lit.(index := o.value - 1), phase := CheckLen(Value)), rest))
            && (d.phase.ReadLen? ==> Does(c, d, s, Continued, AtBody(d1), rest))
  {
    hide Run, P.Resume, Does, Evict, Size, At, Resized, AtBody;
    if d.phase.ReadLen? {
      LengthDoes(c, d, s, o);
    } else {
      NumberDoes(c, d, s, o);
    }
  }

  /** The number of a size update or an index. */
  lemma NumberDoes(c: Codec, d: Decoder, s: Bytes, o: P.Outcome)
    requires Usable(c) && Valid(c, d) && (d.phase == ReadTableSize || d.phase == ReadIndex) && s != [] && Defined(c, d, s)
    requires o == P.Resume(d.num.left, d.num.shift, s, IntBits(d)) && o.Complete? && o.value <= IntMax(d)
    ensures var d1, rest := d.(num := Number(o.value, o.shift)), s[o.used..];
            && (d.phase == ReadTableSize ==>
                  Does(c, d, s, Continued, d1.(ctx := Resized(d.ctx, o.value), phase := Start), rest))
            && (d.phase == ReadIndex && o.value == 0 ==> Does(c, d, s, Rejected, d, s))
            && (d.phase == ReadIndex && o.value > 0 && d.lit.op == OpIndexed ==>
                  Does(c, d, s, Emitting(Emitted(At(c.dict, d.ctx.table, o.value - 1), false)),
                       d1.(lit := d.lit.(index := o.value - 1), phase := Opcode), rest))
            && (d.phase == ReadIndex && o.value > 0 && d.lit.op != OpIndexed ==>
                  Does(c, d, s, Continued, d1.(lit := d.lit.(index := o.value - 1), phase := CheckLen(Value)), rest))
  {
    hide Run, P.Resume, Defined, Evict, Size;
    IntCase(c, d, s, o);
    var r := IntDone(c, d.(num := Number(o.value, o.shift)));
    if r.Next? && r.out == [] {
      GoesNowhere(c, r.d);
      ContinuesAt(c, d, s, o.used, r.d);
    } else if r.Next? {
      EmitsAt(c, d, s, o.used, r.d, r.out[0]);
    }
    hide Leads, Go;
  }

  /** The length of a string; an empty value is complete with it. */
  lemma LengthDoes(c: Codec, d: Decoder, s: Bytes, o: P.Outcome)
    requires Usable(c) && Valid(c, d) && d.phase.ReadLen? && s != [] && Defined(c, d, s)
    requires o == P.Resume(d.num.left, d.num.shift, s, IntBits(d)) && o.Complete? && o.value <= IntMax(d)
    ensures Does(c, d, s, Continued, AtBody(d.(num := Number(o.value, o.shift))), s[o.used..])
  {
    hide Run, P.Resume, Defined, Evict, Size, FieldOf, Indexing;
    IntCase(c, d, s, o);
    var d' := AtBody(d.(num := Number(o.value, o.shift)));
    if Drained(d') {
      ThenNothing(c, Commit(c, d'));
    } else {
      GoesNowhere(c, d');
    }
    ContinuesAt(c, d, s, o.used, d');
  }

  // ---- Strings ----

  /** Reading string bytes `s` in one go, not beyond the end of the string. */
  function ReadBytes(c: Codec, d: Decoder, s: Bytes): (r: Step)
    requires Usable(c) && (d.phase.ReadHuff? || d.phase.ReadRaw?) && |s| <= d.num.left && d.text.hstate < |c.huff.decode|
    ensures r == Fail([]) || (r.Next? && r.out == [] && r.d.num.left == d.num.left - |s| && r.d.phase == d.phase)
  {
    var left := d.num.(left := d.num.left - |s|);
    var old' := Stored(d.text, d.phase.part);
    if d.phase.ReadRaw? then Next(d.(text := Store(d.text, d.phase.part, old' + s), num := left), [])
    else
      var h := H.Decode(c.huff, d.text.hstate, d.text.haccept, s);
      if h.Rejected? || (d.num.left == |s| && !h.accept) then Fail([])
      else Next(d.(text := Store(d.text.(hstate := h.state, haccept := h.accept), d.phase.part, old' + h.out), num := left), [])
  }

  lemma ReadBytesRuns(c: Codec, d: Decoder, s: Bytes)
    requires Usable(c) && Valid(c, d) && (d.phase.ReadHuff? || d.phase.ReadRaw?) && 0 < |s| <= d.num.left
    ensures var r := ReadBytes(c, d, s);
            && (r == Fail([]) ==> Run(c, d, s) == Fail([]))
            && (r.Next? && r.d.num.left > 0 ==> Run(c, d, s) == r && Valid(c, r.d))
            && (r.Next? && r.d.num.left == 0 ==>
                  HasName(r.d.ctx, r.d.lit) && Size(r.d.ctx.table) <= r.d.ctx.max && r.d.text.hstate < |c.huff.decode|
                  && Run(c, d, s) == StringDone(c, r.d, d.phase.part))
  {
    hide Run;
    if d.phase.ReadRaw? {
      RunRaw(c, d, s);
    } else {
      RunHuff(c, d, s);
    }
  }

  /** Reading as much of a string as there is. */
  lemma BodyDoes(c: Codec, d: Decoder, s: Bytes, n: nat)
    requires Usable(c) && Valid(c, d) && (d.phase.ReadHuff? || d.phase.ReadRaw?) && Defined(c, d, s)
    requires n <= |s| && 0 < n <= d.num.left && (n == |s| || n == d.num.left)
    ensures var r := ReadBytes(c, d, s[..n]);
            && (r == Fail([]) ==> Does(c, d, s, Rejected, d, s))
            && (r.Next? && r.d.num.left > 0 ==> Does(c, d, s, Starved, r.d, s[n..]))
            && (r.Next? && r.d.num.left == 0 && d.phase.part == Name ==> Does(c, d, s, Continued, r.d.(phase := CheckLen(Value)), s[n..]))
            && (r.Next? && r.d.num.left == 0 && d.phase.part == Value ==>
                  HasName(r.d.ctx, r.d.lit) && Size(r.d.ctx.table) <= r.d.ctx.max && r.d.text.hstate < |c.huff.decode|
                  && var r' := Commit(c, r.d); Does(c, d, s, Emitting(r'.out[0]), r'.d, s[n..]))
  {
    assert s == s[..n] + s[n..];
    RunSplit(c, d, s[..n], s[n..]);
    ReadBytesRuns(c, d, s[..n]);
    var r := Run(c, d, s[..n]);
    if r.Next? {
      DefinedSplit(c, d, s, n);
      if n == d.num.left && d.phase.part == Name {
        GoesNowhere(c, r.d);
        ContinuesAt(c, d, s, n, r.d);
      } else if n == d.num.left {
        EmitsAt(c, d, s, n, r.d, r.out[0]);
      }
    }
    hide ReadBytes, Defined, Decoding.Valid, Indexing, FieldOf, Leads;
  }

  /** A complete value: the header is committed without reading on. */
  lemma DrainedDoes(c: Codec, d: Decoder, s: Bytes)
    requires Usable(c) && Settled(c, d) && Drained(d) && DefinedGo(c, d, s)
    ensures var r := Commit(c, d); Does(c, d, s, Emitting(r.out[0]), r.d, s)
  {
    assert s[..0] == [] && s[0..] == s;
    ThenNothing(c, Commit(c, d));
  }

  /** An empty name leads on to the value. */
  lemma EmptyNameDoes(c: Codec, d: Decoder, s: Bytes)
    requires Usable(c) && Valid(c, d) && s != [] && Defined(c, d, s)
    requires (d.phase == ReadHuff(Name) || d.phase == ReadRaw(Name)) && d.num.left == 0
    ensures Does(c, d, s, Continued, d.(phase := CheckLen(Value)), s)
  {
    hide P.Resume, IntDone;
    var d' := d.(phase := CheckLen(Value));
    PastName(c, d, s);
    assert ToLen(d', Value, s[0]) == ToLen(d, Value, s[0]);
    assert OnByte(c, d', s[0]) == OnByte(c, d, s[0]) && IntStart(d', s[0]) == IntStart(d, s[0]);
    LeadsWithout(c, d, s, d');
  }

  lemma ReadNothing(c: Codec, d: Decoder)
    requires Usable(c) && (d.phase.ReadHuff? || d.phase.ReadRaw?) && d.text.hstate < |c.huff.decode|
    requires d.phase.ReadHuff? && d.num.left == 0 ==> d.text.haccept
    ensures ReadBytes(c, d, []) == Next(d, [])
  {
    var old' := Stored(d.text, d.phase.part);
    assert old' + [] == old';
  }

  /** How a case that reads string bytes ends, `r` being the outcome of reading them. */
  ghost predicate BodyEnds(c: Codec, d: Decoder, s: Bytes, r: Step, rest: Bytes)
    requires Usable(c) && Settled(c, d) && (d.phase.ReadHuff? || d.phase.ReadRaw?)
  {
    && (r == Fail([]) ==> Does(c, d, s, Rejected, d, s))
    && (r.Next? && r.d.num.left > 0 ==> Does(c, d, s, Starved, r.d, rest))
    && (r.Next? && r.d.num.left == 0 && d.phase.part == Name ==> Does(c, d, s, Continued, r.d.(phase := CheckLen(Value)), rest))
    && (r.Next? && r.d.num.left == 0 && d.phase.part == Value ==>
          HasName(r.d.ctx, r.d.lit) && Size(r.d.ctx.table) <= r.d.ctx.max && r.d.text.hstate < |c.huff.decode|
          && var r' := Commit(c, r.d); Does(c, d, s, Emitting(r'.out[0]), r'.d, rest))
  }

  lemma BodyCase(c: Codec, d: Decoder, s: Bytes, n: nat)
    requires Usable(c) && Settled(c, d) && (d.phase.ReadHuff? || d.phase.ReadRaw?) && DefinedGo(c, d, s)
    requires n <= |s| && n <= d.num.left && (n == |s| || n == d.num.left) && (d.phase.part == Name ==> s != [])
    ensures BodyEnds(c, d, s, ReadBytes(c, d, s[..n]), s[n..])
  {
    if n > 0 {
      BodyDoes(c, d, s, n);
    } else {
      ReadNothing(c, d);
      assert s[..0] == [] && s[0..] == s;
      if d.num.left > 0 {
        assert Does(c, d, s, Starved, d, s);
      } else if d.phase.part == Name {
        EmptyNameDoes(c, d, s);
      } else {
        DrainedDoes(c, d, s);
      }
    }
  }

  lemma DoesTwice(c: Codec, d: Decoder, s: Bytes, d1: Decoder, s1: Bytes, w: Switch, d2: Decoder, s2: Bytes)
    requires Usable(c) && Settled(c, d) && Does(c, d, s, Continued, d1, s1) && Does(c, d1, s1, w, d2, s2)
    ensures Does(c, d, s, w, d2, s2)
  {
    hide Settled, Go, Defined, DefinedGo, Leads, Valid;
    var k := |s| - |s1|;
    LeadsTo(c, d, s, d1, k);
    match w {
      case Continued => LeadsOn(c, d, s, d1, k, d2, |s1| - |s2|);
      case Emitting(e) => EmitsOn(c, d, s, d1, k, d2, |s1| - |s2|, e);
      case _ =>
    }
  }

  lemma EmitsOn(c: Codec, d: Decoder, s: Bytes, d1: Decoder, k: nat, d2: Decoder, j: nat, e: Emitted)
    requires Usable(c) && Settled(c, d) && Leads(c, d, s, d1, k)
    requires k + j <= |s| && Settled(c, d1) && Go(c, d1, s[k..][..j]) == Next(d2, [e])
    ensures Go(c, d, s[..k + j]) == Next(d2, [e])
  {
    assert s[k..][..j] == s[k..k + j] && s[k..k] == [];
    if j == 0 && !Drained(d1) {
      assert false;
    }
    hide Settled, Go;
  }
}
