/** The decoder reads back each integer, string and representation the encoder writes, whatever follows it. */
module Reading {
  import opened Bits
  import opened HeaderTable
  import opened Encoding
  import opened Decoding
  import H = Huffman
  import P = PrefixInt

  // ---- Reading integers ----

  /**
   * Reading an integer byte by byte comes to the same as decoding the whole piece at once: partial
   * values only grow, so checking the bound early or late makes no difference.
   */
  lemma {:induction false} RunInt(c: Codec, d: Decoder, s: Bytes)
    requires Usable(c) && Decoding.Valid(c, d) && ReadsInt(d.phase) && s != []
    requires P.Resume(d.num.left, d.num.shift, s, IntBits(d)) != P.Undefined
    ensures var o := P.Resume(d.num.left, d.num.shift, s, IntBits(d));
            Run(c, d, s) == if o.Complete? then Then(c, AfterInt(c, d, o), s[o.used..]) else AfterInt(c, d, o)
    decreases |s|
  {
    var o, o1 := P.Resume(d.num.left, d.num.shift, s, IntBits(d)), P.Resume(d.num.left, d.num.shift, [s[0]], IntBits(d));
    P.ResumeStep(d.num.left, d.num.shift, s, IntBits(d));
    if !o1.Incomplete? {
      assert Run(c, d, s) == Then(c, AfterInt(c, d, o1), s[1..]);
    } else if o1.value > IntMax(d) {
      assert AfterInt(c, d, o) == Fail([]);
    } else {
      var d1 := d.(num := Number(o1.value, o1.shift));
      RunIntMore(c, d, s, o1);
      if s[1..] != [] {
        RunInt(c, d1, s[1..]);
        var o' := P.Resume(d1.num.left, d1.num.shift, s[1..], IntBits(d1));
        AfterIntFrom(c, d, d1, o', 1);
        assert o == P.Plus(o', 1);
        assert o'.Complete? ==> s[1..][o'.used..] == s[o.used..];
      }
    }
  }

  /** Where an integer started does not matter once it is read. */
  lemma AfterIntFrom(c: Codec, d: Decoder, d1: Decoder, o: P.Outcome, k: nat)
    requires Usable(c) && Decoding.Valid(c, d) && ReadsInt(d.phase) && Decoding.Valid(c, d1)
    requires d1 == d.(num := d1.num)
    requires (o.Complete? ==> o.value <= UINT32_MAX) && (o.Incomplete? ==> 0 < o.value <= UINT32_MAX)
    ensures AfterInt(c, d1, o) == AfterInt(c, d, P.Plus(o, k))
  {
  }

  lemma RunIntMore(c: Codec, d: Decoder, s: Bytes, o: P.Outcome)
    requires Usable(c) && Decoding.Valid(c, d) && ReadsInt(d.phase) && s != []
    requires o == P.Resume(d.num.left, d.num.shift, [s[0]], IntBits(d)) && o.Incomplete? && o.value <= IntMax(d)
    ensures var d1 := d.(num := Number(o.value, o.shift));
            Decoding.Valid(c, d1) && Run(c, d, s) == Run(c, d1, s[1..])
  {
    var d1 := d.(num := Number(o.value, o.shift));
    assert OnByte(c, d, s[0]) == Next(d1, []);
    PrependNothing(Run(c, d1, s[1..]));
  }

  // ---- Reading strings ----

  lemma ThenNothing(c: Codec, r: Step)
    requires Usable(c) && Keeps(c, r)
    ensures Then(c, r, []) == r
  {
    assert r.Next? ==> r.out + [] == r.out;
  }

  lemma RunOne(c: Codec, d: Decoder, s: Bytes)
    requires Usable(c) && Decoding.Valid(c, d) && |s| == 1
    ensures Run(c, d, s) == OnByte(c, d, s[0])
  {
    assert s[1..] == [];
    ThenNothing(c, OnByte(c, d, s[0]));
  }

  lemma RunOn(c: Codec, d: Decoder, s: Bytes, d1: Decoder)
    requires Usable(c) && Decoding.Valid(c, d) && s != [] && OnByte(c, d, s[0]) == Next(d1, [])
    ensures Decoding.Valid(c, d1) && Run(c, d, s) == Run(c, d1, s[1..])
  {
    PrependNothing(Run(c, d1, s[1..]));
  }

  /** String bytes received in two pieces amount to one. */
  lemma ReceivedTwice(c: Codec, d: Decoder, a: Bytes, m: nat, b: Bytes, n: nat)
    requires Usable(c) && Decoding.Valid(c, d) && (d.phase.ReadHuff? || d.phase.ReadRaw?)
    requires 0 < m && 0 < n && m + n <= d.num.left
    ensures var r := Received(c, d, a, m);
            r.Next? && r.out == [] && r.d.phase == d.phase && r.d.num.left == d.num.left - m && r.d.text.hstate == d.text.hstate
            && Received(c, r.d, b, n) == Received(c, d, a + b, m + n)
  {
    var s := Stored(d.text, d.phase.part);
    assert s + a + b == s + (a + b);
  }

  /** Plain string bytes, one at a time or all at once. */
  lemma {:induction false} RunRaw(c: Codec, d: Decoder, s: Bytes)
    requires Usable(c) && Decoding.Valid(c, d) && d.phase.ReadRaw? && 0 < |s| <= d.num.left
    ensures Run(c, d, s) == Received(c, d, s, |s|)
    decreases |s|
  {
    if |s| == 1 {
      assert s == [s[0]];
      RunOne(c, d, s);
    } else {
      assert s == [s[0]] + s[1..];
      ReceivedTwice(c, d, [s[0]], 1, s[1..], |s| - 1);
      var r := Received(c, d, [s[0]], 1);
      RunOn(c, d, s, r.d);
      RunRaw(c, r.d, s[1..]);
    }
  }

  lemma ReceivedHuffTwice(c: Codec, d: Decoder, h: H.Decoded, m: nat, h': H.Decoded, n: nat)
    requires Usable(c) && Decoding.Valid(c, d) && d.phase.ReadHuff? && 0 < m && 0 < n && m + n <= d.num.left
    requires h.Decoded? && h.state < |c.huff.decode| && (h'.Decoded? ==> h'.state < |c.huff.decode|)
    ensures var r := ReceivedHuff(c, d, h, m);
            r.Next? && r.out == [] && r.d.phase == d.phase && r.d.num.left == d.num.left - m
            && r.d.text.hstate == h.state && r.d.text.haccept == h.accept
            && ReceivedHuff(c, r.d, h', n) == ReceivedHuff(c, d, H.AfterOutput(h.out, h'), m + n)
  {
    var d1 := d.(text := d.text.(hstate := h.state, haccept := h.accept));
    var s := Stored(d.text, d.phase.part);
    if h'.Decoded? {
      assert s + h.out + h'.out == s + (h.out + h'.out);
    }
  }

  /** Huffman-coded bytes, one at a time or all at once. */
  lemma {:induction false} RunHuff(c: Codec, d: Decoder, s: Bytes)
    requires Usable(c) && Decoding.Valid(c, d) && d.phase.ReadHuff? && 0 < |s| <= d.num.left
    ensures Run(c, d, s) == ReceivedHuff(c, d, H.Decode(c.huff, d.text.hstate, d.text.haccept, s), |s|)
    decreases |s|
  {
    var h := H.DecodeByte(c.huff, d.text.hstate, s[0]);
    if h.Rejected? {
      assert OnByte(c, d, s[0]) == Fail([]);
    } else if |s| == 1 {
      RunOne(c, d, s);
      DecodeOne(c.huff, d.text.hstate, d.text.haccept, s);
    } else {
      var h' := H.Decode(c.huff, h.state, h.accept, s[1..]);
      ReceivedHuffTwice(c, d, h, 1, h', |s| - 1);
      var r := ReceivedHuff(c, d, h, 1);
      RunOn(c, d, s, r.d);
      RunHuff(c, r.d, s[1..]);
    }
  }

  lemma DecodeOne(t: H.Tables, state: nat, accept: bool, s: Bytes)
    requires H.Shaped(t) && state < |t.decode| && |s| == 1
    ensures H.Decode(t, state, accept, s) == H.DecodeByte(t, state, s[0])
  {
    var h := H.DecodeByte(t, state, s[0]);
    assert h.Decoded? ==> h.out + [] == h.out;
    assert s[1..] == [];
  }

  /** A whole integer, with whatever follows it. */
  lemma RunWholeInt(c: Codec, d: Decoder, first: Byte, n: nat, rest: Bytes, w: Bytes)
    requires Usable(c) && Decoding.Valid(c, d) && ReadsInt(d.phase) && d.num == Number(0, 0) && n <= UINT32_MAX
    requires w == P.Encoded(first, n, IntBits(d)) + rest
    ensures Run(c, d, w) ==
            if n > IntMax(d) then Fail([])
            else Then(c, IntDone(c, d.(num := Number(n, P.LastShift(n, IntBits(d))))), rest)
  {
    P.RoundTrip(first, n, IntBits(d), rest);
    RunInt(c, d, w);
    assert w[|P.Encoded(first, n, IntBits(d))|..] == rest;
  }

  /** The first byte of an integer behind flag bits. */
  lemma FlagByte(first: Byte, n: nat, prefix: nat)
    requires 1 <= prefix <= 7 && LowBits(first, prefix) == 0
    ensures P.Encoded(first, n, prefix)[0] == first + Min(n, P.Mask(prefix))
  {
  }

  lemma LengthByte(huffman: bool, n: nat)
    ensures P.Encoded(if huffman then 0x80 else 0, n, 7)[0] >= 0x80 <==> huffman
  {
    Pow2Small();
    FlagByte(if huffman then 0x80 else 0, n, 7);
  }

  lemma UpdateByte(n: nat)
    ensures P.Encoded(0x20, n, 5)[0] / 32 == 1
  {
    Pow2Small();
    FlagByte(0x20, n, 5);
  }

  lemma IndexedByte(n: nat)
    ensures P.Encoded(0x80, n, 7)[0] >= 0x80
  {
    Pow2Small();
    FlagByte(0x80, n, 7);
  }

  /** An index is never zero, so the first byte is not that of a new name. */
  lemma LiteralByte(mode: Mode, n: nat)
    requires n > 0
    ensures var b := P.Encoded(FirstByte(mode), n, IndexPrefix(mode))[0];
            b < 0x80 && b / 32 != 1 && b != 0x40 && b != 0 && b != 0x10
            && (b >= 0x40 <==> mode == WithIndexing) && (b / 16 == 1 <==> mode == NeverIndexing)
  {
    Pow2Small();
    FlagByte(FirstByte(mode), n, IndexPrefix(mode));
  }

  /** The state once the length of a string is read. */
  function LengthRead(c: Codec, d: Decoder, part: Part, s: Bytes): Decoder
    requires Usable(c)
  {
    var h, n := UsesHuffman(c.huff, s), |StringBody(c.huff, s)|;
    d.(phase := ReadLen(part), num := Number(n, P.LastShift(n, 7)), text := d.text.(huffman := h))
  }

  /** Reading the length of a string. */
  lemma RunLength(c: Codec, d: Decoder, part: Part, s: Bytes, rest: Bytes)
    requires Usable(c) && Decoding.Valid(c, d) && d.phase == CheckLen(part) && |s| <= UINT32_MAX
    ensures var d1 := LengthRead(c, d, part, s);
            Run(c, d, StringWire(c.huff, s) + rest) ==
            if d1.num.left > MAX_STRING then Fail([]) else Then(c, IntDone(c, d1), StringBody(c.huff, s) + rest)
  {
    var h, body := UsesHuffman(c.huff, s), StringBody(c.huff, s);
    var enc := P.Encoded(if h then 0x80 else 0, |body|, 7);
    var w := enc + (body + rest);
    assert StringWire(c.huff, s) + rest == w;
    LengthByte(h, |body|);
    RunWholeInt(c, ToLen(d, part, w[0]), if h then 0x80 else 0, |body|, body + rest, w);
    assert Run(c, d, w) == Run(c, ToLen(d, part, w[0]), w);
  }

  /** `d'` has read string `s` on top of `d`, and nothing else. */
  ghost predicate Has(d: Decoder, d': Decoder, part: Part, s: Bytes)
  {
    d'.ctx == d.ctx && d'.lit == d.lit && d'.num.left == 0 && Stored(d'.text, part) == s
    && (part == Value ==> d'.text.name == d.text.name)
  }

  /** Reading the bytes of a string that is not empty on the wire. */
  lemma RunBody(c: Codec, d: Decoder, part: Part, s: Bytes, rest: Bytes) returns (d': Decoder)
    requires Usable(c) && H.WellFormed(c.huff) && Decoding.Valid(c, d) && Stored(d.text, part) == []
    requires d.num.left == |StringBody(c.huff, s)| > 0
    requires if UsesHuffman(c.huff, s) then d.phase == ReadHuff(part) && d.text.hstate == 0 && d.text.haccept
             else d.phase == ReadRaw(part)
    ensures Has(d, d', part, s) && HasName(d'.ctx, d'.lit) && d'.text.hstate < |c.huff.decode|
    ensures Run(c, d, StringBody(c.huff, s) + rest) == Then(c, StringDone(c, d', part), rest)
  {
    var body := StringBody(c.huff, s);
    RunSplit(c, d, body, rest);
    assert [] + s == s;
    var text := d.text;
    if UsesHuffman(c.huff, s) {
      H.RoundTrip(c.huff, s);
      var h := H.Decode(c.huff, 0, true, body);
      RunHuff(c, d, body);
      text := text.(hstate := h.state, haccept := h.accept);
    } else {
      RunRaw(c, d, body);
    }
    d' := d.(text := Store(text, part, s), num := d.num.(left := 0));
  }

  /** Nothing is encoded as the empty string but the empty string. */
  lemma EmptyBody(h: H.Tables, s: Bytes)
    requires H.WellFormed(h) && StringBody(h, s) == []
    ensures s == []
  {
    H.RoundTrip(h, s);
  }

  /** After an empty name the decoder goes on as if it were already past it. */
  lemma PastName(c: Codec, d: Decoder, rest: Bytes)
    requires Usable(c) && Decoding.Valid(c, d) && d.num.left == 0 && rest != []
    requires d.phase == ReadHuff(Name) || d.phase == ReadRaw(Name)
    ensures Run(c, d, rest) == Run(c, d.(phase := CheckLen(Value)), rest)
  {
    var d1 := d.(phase := CheckLen(Value));
    assert ToLen(d, Value, rest[0]) == ToLen(d1, Value, rest[0]);
  }

  /** The state once the length of a string is read and its bytes follow. */
  function BodyNext(c: Codec, d: Decoder, part: Part, s: Bytes): Decoder
    requires Usable(c)
  {
    var d1 := LengthRead(c, d, part, s);
    if UsesHuffman(c.huff, s)
    then d1.(phase := ReadHuff(part), text := Store(d1.text, part, []).(hstate := 0, haccept := true))
    else d1.(phase := ReadRaw(part), text := Store(d1.text, part, []))
  }

  /** What `BodyNext` is ready for. */
  ghost predicate Ready(c: Codec, d: Decoder, d2: Decoder, part: Part, s: Bytes)
    requires Usable(c)
  {
    && d2.ctx == d.ctx && d2.lit == d.lit && Stored(d2.text, part) == [] && (part == Value ==> d2.text.name == d.text.name)
    && d2.num.left == |StringBody(c.huff, s)|
    && d2.text.hstate < |c.huff.decode| && HasName(d2.ctx, d2.lit) && Size(d2.ctx.table) <= d2.ctx.max
    && if UsesHuffman(c.huff, s) then d2.phase == ReadHuff(part) && d2.text.hstate == 0 && d2.text.haccept
       else d2.phase == ReadRaw(part)
  }

  lemma BodyStarts(c: Codec, d: Decoder, part: Part, s: Bytes)
    requires Usable(c) && Decoding.Valid(c, d) && d.phase == CheckLen(part) && |s| <= UINT32_MAX
    requires |StringBody(c.huff, s)| <= MAX_STRING
    ensures var d1, d2 := LengthRead(c, d, part, s), BodyNext(c, d, part, s);
            Decoding.Valid(c, d1.(num := Number(d1.num.left, 0))) && Ready(c, d, d2, part, s)
            && IntDone(c, d1) == if part == Value && d1.num.left == 0 then Commit(c, d2) else Next(d2, [])
  {
  }

  /** The same in one step, from before the length. */
  lemma ToBody(c: Codec, d: Decoder, part: Part, s: Bytes, rest: Bytes, w: Bytes) returns (d2: Decoder)
    requires Usable(c) && Decoding.Valid(c, d) && d.phase == CheckLen(part) && |s| <= UINT32_MAX
    requires w == StringWire(c.huff, s) + rest
    ensures |StringBody(c.huff, s)| > MAX_STRING ==> Run(c, d, w) == Fail([])
    ensures |StringBody(c.huff, s)| <= MAX_STRING ==> Ready(c, d, d2, part, s)
    ensures |StringBody(c.huff, s)| <= MAX_STRING && part == Value && d2.num.left == 0 ==>
              Run(c, d, w) == Then(c, Commit(c, d2), StringBody(c.huff, s) + rest)
    ensures |StringBody(c.huff, s)| <= MAX_STRING && !(part == Value && d2.num.left == 0) ==>
              Decoding.Valid(c, d2) && Run(c, d, w) == Run(c, d2, StringBody(c.huff, s) + rest)
  {
    RunLength(c, d, part, s, rest);
    d2 := BodyNext(c, d, part, s);
    if |StringBody(c.huff, s)| <= MAX_STRING {
      BodyStarts(c, d, part, s);
      if !(part == Value && d2.num.left == 0) {
        PrependNothing(Run(c, d2, StringBody(c.huff, s) + rest));
      }
    }
  }

  lemma StringEnds(c: Codec, d: Decoder, part: Part, rest: Bytes)
    requires Usable(c) && Decoding.Valid(c, d) && d.num.left == 0 && rest != []
    requires d.phase == ReadHuff(Name) || d.phase == ReadRaw(Name)
    ensures Run(c, d, rest) == Then(c, StringDone(c, d, Name), rest)
  {
    PastName(c, d, rest);
    PrependNothing(Run(c, d.(phase := CheckLen(Value)), rest));
  }

  /** Reading a string literal: one that is too long ends the run, any other is stored. */
  lemma RunString(c: Codec, d: Decoder, part: Part, s: Bytes, rest: Bytes, w: Bytes) returns (d': Decoder)
    requires Usable(c) && H.WellFormed(c.huff) && Decoding.Valid(c, d) && d.phase == CheckLen(part) && |s| <= UINT32_MAX
    requires w == StringWire(c.huff, s) + rest && (part == Name ==> rest != [])
    ensures |StringBody(c.huff, s)| > MAX_STRING ==> Run(c, d, w) == Fail([])
    ensures |StringBody(c.huff, s)| <= MAX_STRING ==>
              Has(d, d', part, s) && d'.text.hstate < |c.huff.decode| && HasName(d'.ctx, d'.lit) && Size(d'.ctx.table) <= d'.ctx.max
              && Run(c, d, w) == Then(c, StringDone(c, d', part), rest)
  {
    d' := ToBody(c, d, part, s, rest, w);
    if |StringBody(c.huff, s)| <= MAX_STRING {
      if StringBody(c.huff, s) == [] {
        EmptyBody(c.huff, s);
        assert StringBody(c.huff, s) + rest == rest;
        if part == Name {
          StringEnds(c, d', part, rest);
        }
      } else {
        d' := RunBody(c, d', part, s, rest);
      }
    }
  }

  // ---- Reading representations ----

  /** Between representations: at the start of a block, or after a header. */
  predicate Between(p: Phase)
  {
    p == ExpectTableSize || p == Start || p == Opcode
  }

  /** The integer a representation starts with. */
  lemma RunOpening(c: Codec, d: Decoder, d1: Decoder, first: Byte, n: nat, rest: Bytes, w: Bytes)
    requires Usable(c) && Decoding.Valid(c, d) && Between(d.phase) && n <= UINT32_MAX
    requires 1 <= IntBits(d1) <= 7 && w == P.Encoded(first, n, IntBits(d1)) + rest
    requires OpcodeByte(d, w[0]) == Again(d1)
    ensures Decoding.Valid(c, d1) && ReadsInt(d1.phase) && d1.num == Number(0, 0)
    ensures Run(c, d, w) ==
            if n > IntMax(d1) then Fail([])
            else Then(c, IntDone(c, d1.(num := Number(n, P.LastShift(n, IntBits(d1))))), rest)
  {
    RunWholeInt(c, d1, first, n, rest, w);
    assert Run(c, d, w) == Run(c, d1, w);
  }

  /**
   * A size update takes effect and never leaves the start of the block, or is refused: exactly when it exceeds
   * the limit from the settings or what has to be announced.
   */
  lemma RunUpdate(c: Codec, d: Decoder, size: nat, rest: Bytes, w: Bytes) returns (d': Decoder)
    requires Usable(c) && Decoding.Valid(c, d) && (d.phase == ExpectTableSize || d.phase == Start)
    requires size <= UINT32_MAX && w == Wire(c.huff, SizeUpdate(size)) + rest
    ensures size > d.ctx.settings || size > d.ctx.minMax ==> Run(c, d, w) == Fail([])
    ensures size <= d.ctx.settings && size <= d.ctx.minMax ==>
              Decoding.Valid(c, d') && d'.phase == Start && d'.ctx == Resized(d.ctx, size) && Run(c, d, w) == Run(c, d', rest)
  {
    UpdateByte(size);
    var d1 := d.(num := Number(0, 0), lit := d.lit.(op := OpIndexed), phase := ReadTableSize);
    assert OpcodeByte(d, w[0]) == Again(d1);
    RunOpening(c, d, d1, 0x20, size, rest, w);
    var d2 := d1.(num := Number(size, P.LastShift(size, 5)));
    d' := d2.(ctx := Resized(d2.ctx, size), phase := Start);
    if size <= d.ctx.settings && size <= d.ctx.minMax {
      PrependNothing(Run(c, d', rest));
    }
  }

  /** An indexed header is emitted as it is. */
  lemma RunIndexed(c: Codec, d: Decoder, idx: nat, rest: Bytes, w: Bytes) returns (d': Decoder)
    requires Usable(c) && Decoding.Valid(c, d) && (d.phase == Start || d.phase == Opcode)
    requires idx < STATIC_LENGTH + |d.ctx.table| <= UINT32_MAX && w == Wire(c.huff, Indexed(idx)) + rest
    ensures Decoding.Valid(c, d') && d'.phase == Opcode && d'.ctx == d.ctx
    ensures Run(c, d, w) == Prepend([Emitted(At(c.dict, d.ctx.table, idx), false)], Run(c, d', rest))
  {
    hide Run, P.Encoded;
    IndexedByte(idx + 1);
    var d1 := d.(num := Number(0, 0), lit := d.lit.(op := OpIndexed), phase := ReadIndex);
    assert OpcodeByte(d, w[0]) == Again(d1);
    RunOpening(c, d, d1, 0x80, idx + 1, rest, w);
    d' := d1.(num := Number(idx + 1, P.LastShift(idx + 1, 7)), lit := d1.lit.(index := idx), phase := Opcode);
  }

  /** `d` is about to read the value of a literal with this name. */
  ghost predicate AtValue(c: Codec, d: Decoder, name: Bytes, mode: Mode)
  {
    && Usable(c) && Decoding.Valid(c, d) && d.phase == CheckLen(Value)
    && d.lit.indexRequired == (mode == WithIndexing) && d.lit.noIndex == (mode == NeverIndexing)
    && name == FieldOf(c, d.ctx, d.lit, d.text).name
  }

  /** The table as the mode wants it. */
  function AddedAs(ctx: Context, f: Field, mode: Mode): Context
  {
    if mode == WithIndexing then ctx.(table := Add(ctx.table, f, ctx.max)) else ctx
  }

  /** Reading `w` from `d` emits the header `f` and goes on from `d'` with `rest`. */
  ghost predicate HeaderRead(c: Codec, d: Decoder, w: Bytes, f: Field, mode: Mode, d': Decoder, rest: Bytes)
  {
    && Usable(c) && Decoding.Valid(c, d) && Decoding.Valid(c, d') && d'.phase == Opcode && d'.ctx == AddedAs(d.ctx, f, mode)
    && Run(c, d, w) == Prepend([Emitted(f, mode == NeverIndexing)], Run(c, d', rest))
  }

  /** The value of a literal completes the header. */
  lemma RunLast(c: Codec, d: Decoder, name: Bytes, value: Bytes, mode: Mode, rest: Bytes, w: Bytes) returns (d': Decoder)
    requires AtValue(c, d, name, mode) && H.WellFormed(c.huff) && |value| <= UINT32_MAX
    requires w == StringWire(c.huff, value) + rest
    ensures |StringBody(c.huff, value)| > MAX_STRING ==> Run(c, d, w) == Fail([])
    ensures |StringBody(c.huff, value)| <= MAX_STRING ==>
              HeaderRead(c, d, w, Field(name, value), mode, d', rest)
  {
    d' := RunString(c, d, Value, value, rest, w);
    if |StringBody(c.huff, value)| <= MAX_STRING {
      var f := FieldOf(c, d'.ctx, d'.lit, d'.text);
      assert f == Field(name, value);
      d' := Commit(c, d').d;
    }
  }

  lemma OpensIndexedName(d: Decoder, mode: Mode, idx: nat, b: Byte)
    requires d.phase == Start || d.phase == Opcode
    requires b == P.Encoded(FirstByte(mode), idx + 1, IndexPrefix(mode))[0]
    ensures OpcodeByte(d, b) == Again(d.(num := Number(0, 0), phase := ReadIndex,
              lit := Literal(OpIndName, mode == WithIndexing, mode == NeverIndexing, d.lit.index)))
  {
    LiteralByte(mode, idx + 1);
  }

  /** The opening of a literal whose name is in a table. */
  lemma OpenIndexedName(c: Codec, d: Decoder, idx: nat, mode: Mode, rest: Bytes, w: Bytes) returns (d': Decoder)
    requires Usable(c) && Decoding.Valid(c, d) && (d.phase == Start || d.phase == Opcode)
    requires idx < STATIC_LENGTH + |d.ctx.table| <= UINT32_MAX
    requires w == P.Encoded(FirstByte(mode), idx + 1, IndexPrefix(mode)) + rest
    ensures d'.ctx == d.ctx && AtValue(c, d', At(c.dict, d.ctx.table, idx).name, mode) && Run(c, d, w) == Run(c, d', rest)
  {
    hide Run, P.Encoded, OpcodeByte;
    OpensIndexedName(d, mode, idx, w[0]);
    var d1 := d.(num := Number(0, 0), phase := ReadIndex,
                 lit := Literal(OpIndName, mode == WithIndexing, mode == NeverIndexing, d.lit.index));
    RunOpening(c, d, d1, FirstByte(mode), idx + 1, rest, w);
    d' := d1.(num := Number(idx + 1, P.LastShift(idx + 1, IndexPrefix(mode))), lit := d1.lit.(index := idx), phase := CheckLen(Value));
    PrependNothing(Run(c, d', rest));
  }

  /** The opening of a literal that spells out its name. */
  lemma OpenNewName(c: Codec, d: Decoder, mode: Mode, rest: Bytes) returns (d': Decoder)
    requires Usable(c) && Decoding.Valid(c, d) && (d.phase == Start || d.phase == Opcode)
    ensures d' == d.(num := Number(0, 0), phase := CheckLen(Name),
                     lit := Literal(OpNewName, mode == WithIndexing, mode == NeverIndexing, d.lit.index))
    ensures Decoding.Valid(c, d') && Run(c, d, [FirstByte(mode)] + rest) == Run(c, d', rest)
  {
    d' := d.(num := Number(0, 0), phase := CheckLen(Name),
             lit := Literal(OpNewName, mode == WithIndexing, mode == NeverIndexing, d.lit.index));
    var w := [FirstByte(mode)] + rest;
    assert OpcodeByte(d, w[0]) == Taken(d') && w[1..] == rest;
    RunOn(c, d, w, d');
  }

  lemma ReadName(c: Codec, d: Decoder, name: Bytes, mode: Mode, rest: Bytes, w: Bytes) returns (d': Decoder)
    requires Usable(c) && H.WellFormed(c.huff) && Decoding.Valid(c, d) && d.phase == CheckLen(Name)
    requires d.lit.indexRequired == (mode == WithIndexing) && d.lit.noIndex == (mode == NeverIndexing)
    requires |name| <= UINT32_MAX && rest != [] && w == StringWire(c.huff, name) + rest
    ensures |StringBody(c.huff, name)| > MAX_STRING ==> Run(c, d, w) == Fail([])
    ensures |StringBody(c.huff, name)| <= MAX_STRING ==>
              d'.ctx == d.ctx && AtValue(c, d', name, mode) && Run(c, d, w) == Run(c, d', rest)
  {
    d' := RunString(c, d, Name, name, rest, w);
    if |StringBody(c.huff, name)| <= MAX_STRING {
      d' := d'.(phase := CheckLen(Value));
      PrependNothing(Run(c, d', rest));
    }
  }

  /** The header a representation stands for. */
  function FieldFor(c: Codec, t: Table, rep: Rep): Field
    requires Usable(c) && (rep.Indexed? || rep.IndexedName? ==> rep.idx < STATIC_LENGTH + |t|)
  {
    match rep
    case SizeUpdate(_) => Field([], [])
    case Indexed(idx) => At(c.dict, t, idx)
    case IndexedName(idx, value, _) => Field(At(c.dict, t, idx).name, value)
    case NewName(name, value, _) => Field(name, value)
  }

  /** No string of the representation takes more room on the wire than the decoder accepts. */
  predicate Fits(h: H.Tables, rep: Rep)
    requires |h.nbits| == |h.code| == 257
  {
    match rep
    case IndexedName(_, value, _) => |StringBody(h, value)| <= MAX_STRING
    case NewName(name, value, _) => |StringBody(h, name)| <= MAX_STRING && |StringBody(h, value)| <= MAX_STRING
    case _ => true
  }

  /** The strings of a representation have 32-bit lengths. */
  predicate Small(rep: Rep)
  {
    match rep
    case IndexedName(_, value, _) => |value| <= UINT32_MAX
    case NewName(name, value, _) => |name| <= UINT32_MAX && |value| <= UINT32_MAX
    case _ => true
  }

  function ModeIn(rep: Rep): Mode
  {
    if rep.IndexedName? || rep.NewName? then rep.mode else WithoutIndexing
  }

  lemma Regroup(a: Bytes, b: Bytes, c: Bytes, rest: Bytes)
    ensures a + b + rest == a + (b + rest)
    ensures a + b + c + rest == a + (b + (c + rest))
  {
  }

  lemma IndexedNameWire(h: H.Tables, idx: nat, value: Bytes, mode: Mode, rest: Bytes)
    requires |h.nbits| == |h.code| == 257
    ensures Wire(h, IndexedName(idx, value, mode)) + rest ==
            P.Encoded(FirstByte(mode), idx + 1, IndexPrefix(mode)) + (StringWire(h, value) + rest)
  {
    Regroup(P.Encoded(FirstByte(mode), idx + 1, IndexPrefix(mode)), StringWire(h, value), [], rest);
  }

  lemma NewNameWire(h: H.Tables, name: Bytes, value: Bytes, mode: Mode, rest: Bytes)
    requires |h.nbits| == |h.code| == 257
    ensures Wire(h, NewName(name, value, mode)) + rest ==
            [FirstByte(mode)] + (StringWire(h, name) + (StringWire(h, value) + rest))
  {
    Regroup([FirstByte(mode)], StringWire(h, name), StringWire(h, value), rest);
  }

  lemma RunIndexedName(c: Codec, d: Decoder, idx: nat, value: Bytes, mode: Mode, rest: Bytes, w: Bytes) returns (d': Decoder)
    requires Usable(c) && H.WellFormed(c.huff) && Decoding.Valid(c, d) && (d.phase == Start || d.phase == Opcode)
    requires |value| <= UINT32_MAX && idx < STATIC_LENGTH + |d.ctx.table| <= UINT32_MAX
    requires w == Wire(c.huff, IndexedName(idx, value, mode)) + rest
    ensures |StringBody(c.huff, value)| > MAX_STRING ==> Run(c, d, w) == Fail([])
    ensures |StringBody(c.huff, value)| <= MAX_STRING ==>
              HeaderRead(c, d, w, Field(At(c.dict, d.ctx.table, idx).name, value), mode, d', rest)
  {
    var last := StringWire(c.huff, value) + rest;
    IndexedNameWire(c.huff, idx, value, mode, rest);
    var d1 := OpenIndexedName(c, d, idx, mode, last, w);
    d' := RunLast(c, d1, At(c.dict, d.ctx.table, idx).name, value, mode, rest, last);
  }

  lemma RunNewName(c: Codec, d: Decoder, name: Bytes, value: Bytes, mode: Mode, rest: Bytes, w: Bytes) returns (d': Decoder)
    requires Usable(c) && H.WellFormed(c.huff) && Decoding.Valid(c, d) && (d.phase == Start || d.phase == Opcode)
    requires |name| <= UINT32_MAX && |value| <= UINT32_MAX && w == Wire(c.huff, NewName(name, value, mode)) + rest
    ensures |StringBody(c.huff, name)| > MAX_STRING || |StringBody(c.huff, value)| > MAX_STRING ==> Run(c, d, w) == Fail([])
    ensures |StringBody(c.huff, name)| <= MAX_STRING && |StringBody(c.huff, value)| <= MAX_STRING ==>
              HeaderRead(c, d, w, Field(name, value), mode, d', rest)
  {
    var last := StringWire(c.huff, value) + rest;
    var all := StringWire(c.huff, name) + last;
    NewNameWire(c.huff, name, value, mode, rest);
    var d1 := OpenNewName(c, d, mode, all);
    var d2 := ReadName(c, d1, name, mode, last, all);
    d' := d2;
    if |StringBody(c.huff, name)| <= MAX_STRING {
      d' := RunLast(c, d2, name, value, mode, rest, last);
    }
  }

  /** Reading one header representation: it emits its header and changes the table as its mode says, or is refused for its length. */
  lemma RunHeader(c: Codec, d: Decoder, rep: Rep, rest: Bytes, w: Bytes) returns (d': Decoder)
    requires Usable(c) && H.WellFormed(c.huff) && Decoding.Valid(c, d) && (d.phase == Start || d.phase == Opcode)
    requires !rep.SizeUpdate? && Small(rep) && STATIC_LENGTH + |d.ctx.table| <= UINT32_MAX
    requires rep.Indexed? || rep.IndexedName? ==> rep.idx < STATIC_LENGTH + |d.ctx.table|
    requires w == Wire(c.huff, rep) + rest
    ensures !Fits(c.huff, rep) ==> Run(c, d, w) == Fail([])
    ensures Fits(c.huff, rep) ==> HeaderRead(c, d, w, FieldFor(c, d.ctx.table, rep), ModeIn(rep), d', rest)
  {
    match rep {
      case Indexed(idx) => d' := RunIndexed(c, d, idx, rest, w);
      case IndexedName(idx, value, mode) => d' := RunIndexedName(c, d, idx, value, mode, rest, w);
      case NewName(name, value, mode) => d' := RunNewName(c, d, name, value, mode, rest, w);
    }
  }
}
