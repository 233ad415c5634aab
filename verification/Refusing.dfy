/** What the decoder refuses, and what limits its table in every state it gets into. */
module Refusing {
  import opened Bits
  import opened HeaderTable
  import opened Encoding
  import opened Decoding
  import opened Reading
  import H = Huffman
  import P = PrefixInt

  lemma RunFails(c: Codec, d: Decoder, s: Bytes)
    requires Usable(c) && Decoding.Valid(c, d) && s != [] && OnByte(c, d, s[0]) == Fail([])
    ensures Run(c, d, s) == Fail([])
  {
  }

  // ---- Size updates ----

  /** A size update after a header is refused, whatever its size. */
  lemma UpdateTooLate(c: Codec, d: Decoder, size: nat, rest: Bytes)
    requires Usable(c) && Decoding.Valid(c, d) && d.phase == Opcode
    ensures Run(c, d, Wire(c.huff, SizeUpdate(size)) + rest) == Fail([])
  {
    UpdateByte(size);
    RunFails(c, d, Wire(c.huff, SizeUpdate(size)) + rest);
  }

  /** After the settings made the table smaller, a block that does not begin with a size update is refused. */
  lemma UpdateMissing(c: Codec, d: Decoder, rep: Rep, rest: Bytes)
    requires Usable(c) && Decoding.Valid(c, d) && d.phase == ExpectTableSize && !rep.SizeUpdate?
    ensures Run(c, d, Wire(c.huff, rep) + rest) == Fail([])
  {
    NoUpdate(c.huff, rep);
    hide Wire;
    RunFails(c, d, Wire(c.huff, rep) + rest);
  }

  lemma NoUpdate(h: H.Tables, rep: Rep)
    requires |h.nbits| == |h.code| == 257 && !rep.SizeUpdate?
    ensures Wire(h, rep) != [] && Wire(h, rep)[0] / 32 != 1
  {
    match rep {
      case Indexed(idx) => IndexedByte(idx + 1);
      case IndexedName(idx, value, mode) => LiteralByte(mode, idx + 1);
      case NewName(name, value, mode) =>
    }
    hide P.Encoded, StringWire;
  }

  function ResizeAll(d: Decoder, sizes: seq<nat>): (d': Decoder)
    requires d.phase == Start || d.phase == ExpectTableSize
    ensures d'.phase == Start || d'.phase == ExpectTableSize
    decreases |sizes|
  {
    if sizes == [] then d else ResizeAll(DecoderResize(d, sizes[0]), sizes[1..])
  }

  /** The last of some limits that was below the one before it; `bound` if there is none. */
  function LastShrink(max: nat, sizes: seq<nat>, bound: nat): nat
    decreases |sizes|
  {
    if sizes == [] then bound else LastShrink(sizes[0], sizes[1..], if sizes[0] < max then sizes[0] else bound)
  }

  /** Some limit was below the one before it. */
  predicate Shrinks(max: nat, sizes: seq<nat>)
    decreases |sizes|
  {
    sizes != [] && (sizes[0] < max || Shrinks(sizes[0], sizes[1..]))
  }

  /** What several changes of the settings between two blocks come to. */
  lemma {:induction false} ResizedAll(c: Codec, d: Decoder, sizes: seq<nat>)
    requires Usable(c) && Decoding.Valid(c, d) && (d.phase == Start || d.phase == ExpectTableSize) && sizes != []
    ensures var d' := ResizeAll(d, sizes);
            && Decoding.Valid(c, d') && d'.ctx.settings == sizes[|sizes| - 1]
            && d'.ctx.minMax == LastShrink(d.ctx.max, sizes, d.ctx.minMax)
            && (d'.phase == ExpectTableSize <==> d.phase == ExpectTableSize || Shrinks(d.ctx.max, sizes))
    decreases |sizes|
  {
    var d1 := DecoderResize(d, sizes[0]);
    if |sizes| > 1 {
      ResizedAll(c, d1, sizes[1..]);
    } else {
      assert sizes[1..] == [];
    }
  }

  /** After changes of the settings with a shrink among them, a block that begins with a header is refused. */
  lemma ShrinkDemands(c: Codec, d: Decoder, sizes: seq<nat>, rep: Rep, rest: Bytes)
    requires Usable(c) && Decoding.Valid(c, d) && (d.phase == Start || d.phase == ExpectTableSize)
    requires Shrinks(d.ctx.max, sizes) && !rep.SizeUpdate?
    ensures var d' := ResizeAll(d, sizes); Decoding.Valid(c, d') && Run(c, d', Wire(c.huff, rep) + rest) == Fail([])
  {
    hide Run, Wire;
    ResizedAll(c, d, sizes);
    UpdateMissing(c, ResizeAll(d, sizes), rep, rest);
  }

  /** The first size update is accepted up to the last limit and the last one that was a shrink. */
  ghost predicate Accepts(c: Codec, d: Decoder, sizes: seq<nat>, n: nat)
    requires Usable(c) && (d.phase == Start || d.phase == ExpectTableSize)
  {
    Decoding.Valid(c, ResizeAll(d, sizes)) && Run(c, ResizeAll(d, sizes), Wire(c.huff, SizeUpdate(n))).Next?
  }

  lemma AcceptsExactly(c: Codec, d: Decoder, sizes: seq<nat>, n: nat)
    requires Usable(c) && Decoding.Valid(c, d) && (d.phase == Start || d.phase == ExpectTableSize) && sizes != [] && n <= UINT32_MAX
    ensures Accepts(c, d, sizes, n) <==> n <= sizes[|sizes| - 1] && n <= LastShrink(d.ctx.max, sizes, d.ctx.minMax)
  {
    ResizedAll(c, d, sizes);
    var w := Wire(c.huff, SizeUpdate(n));
    assert w + [] == w;
    var d' := RunUpdate(c, ResizeAll(d, sizes), n, [], w);
    hide Wire, ResizeAll, LastShrink;
  }

  /**
   * Section 4.2 wants the smallest limit between two blocks announced. The decoder insists on it if and only if
   * that is the last limit that was below the one before it, or the last of all.
   */
  lemma LeastDemanded(c: Codec, d: Decoder, sizes: seq<nat>)
    requires Usable(c) && Decoding.Valid(c, d) && (d.phase == Start || d.phase == ExpectTableSize) && sizes != []
    requires forall size <- sizes :: size <= UINT32_MAX
    ensures (forall n: nat, size | n <= UINT32_MAX && Accepts(c, d, sizes, n) && size in sizes :: n <= size)
            <==> forall size <- sizes :: Min(sizes[|sizes| - 1], LastShrink(d.ctx.max, sizes, d.ctx.minMax)) <= size
  {
    var most := Min(sizes[|sizes| - 1], LastShrink(d.ctx.max, sizes, d.ctx.minMax));
    assert sizes[|sizes| - 1] in sizes;
    forall n: nat | n <= UINT32_MAX
      ensures Accepts(c, d, sizes, n) <==> n <= most
    {
      AcceptsExactly(c, d, sizes, n);
    }
    hide Accepts, LastShrink;
    if forall n: nat, size | n <= UINT32_MAX && Accepts(c, d, sizes, n) && size in sizes :: n <= size {
      assert Accepts(c, d, sizes, most);
    }
  }

  /** The limits 100, 4000 and 200: an update to 200 is enough, though the table had to go down to 100. */
  lemma LeastForgotten(c: Codec)
    requires Usable(c)
    ensures Accepts(c, NewDecoder(), [100, 4000, 200], 200)
  {
    AcceptsExactly(c, NewDecoder(), [100, 4000, 200], 200);
    assert [100, 4000, 200][1..] == [4000, 200] && [4000, 200][1..] == [200] && [200][1..] == [];
    hide Accepts;
  }

  // ---- Indices ----

  lemma OpensIndexed(d: Decoder, n: nat, b: Byte)
    requires (d.phase == Start || d.phase == Opcode) && b == P.Encoded(0x80, n, 7)[0]
    ensures OpcodeByte(d, b) == Again(d.(num := Number(0, 0), lit := d.lit.(op := OpIndexed), phase := ReadIndex))
  {
    IndexedByte(n);
  }

  /** Index zero, and one beyond both tables, are refused in an indexed header. */
  lemma BadIndex(c: Codec, d: Decoder, n: nat, rest: Bytes)
    requires Usable(c) && Decoding.Valid(c, d) && (d.phase == Start || d.phase == Opcode)
    requires (n == 0 || n > STATIC_LENGTH + |d.ctx.table|) && n <= UINT32_MAX
    ensures Run(c, d, P.Encoded(0x80, n, 7) + rest) == Fail([])
  {
    hide Run, P.Encoded, OpcodeByte;
    var w := P.Encoded(0x80, n, 7) + rest;
    var d1 := d.(num := Number(0, 0), lit := d.lit.(op := OpIndexed), phase := ReadIndex);
    OpensIndexed(d, n, w[0]);
    RunOpening(c, d, d1, 0x80, n, rest, w);
  }

  /** So is one beyond both tables in the name of a literal. */
  lemma BadName(c: Codec, d: Decoder, idx: nat, mode: Mode, rest: Bytes)
    requires Usable(c) && Decoding.Valid(c, d) && (d.phase == Start || d.phase == Opcode)
    requires STATIC_LENGTH + |d.ctx.table| <= idx < UINT32_MAX
    ensures Run(c, d, P.Encoded(FirstByte(mode), idx + 1, IndexPrefix(mode)) + rest) == Fail([])
  {
    hide Run, P.Encoded, OpcodeByte;
    var w := P.Encoded(FirstByte(mode), idx + 1, IndexPrefix(mode)) + rest;
    OpensIndexedName(d, mode, idx, w[0]);
    var d1 := d.(num := Number(0, 0), phase := ReadIndex,
                 lit := Literal(OpIndName, mode == WithIndexing, mode == NeverIndexing, d.lit.index));
    RunOpening(c, d, d1, FirstByte(mode), idx + 1, rest, w);
  }

  // ---- Strings ----

  /** What the bytes of a string literal denote in the coding its flag says. */
  function Denoted(h: H.Tables, huffman: bool, body: Bytes): H.Decoded
    requires H.Shaped(h)
  {
    if huffman then H.Decode(h, 0, true, body) else H.Decoded(0, true, body)
  }

  /** A string literal of any bytes: too long, no code or cut off inside one, it is refused; else it is stored. */
  lemma RunAnyString(c: Codec, d: Decoder, part: Part, huffman: bool, body: Bytes, rest: Bytes) returns (d': Decoder)
    requires Usable(c) && Decoding.Valid(c, d) && d.phase == CheckLen(part) && 0 < |body| <= UINT32_MAX
    ensures var r := Denoted(c.huff, huffman, body);
            var run := Run(c, d, P.Encoded(if huffman then 0x80 else 0, |body|, 7) + body + rest);
            if |body| > MAX_STRING || r.Rejected? || !r.accept then run == Fail([])
            else Has(d, d', part, r.out) && d'.text.hstate < |c.huff.decode| && HasName(d'.ctx, d'.lit)
                 && Size(d'.ctx.table) <= d'.ctx.max && run == Then(c, StringDone(c, d', part), rest)
  {
    var first := if huffman then 0x80 else 0;
    var enc := P.Encoded(first, |body|, 7);
    var w := enc + (body + rest);
    assert enc + body + rest == w;
    LengthByte(huffman, |body|);
    var d1 := ToLen(d, part, w[0]);
    RunWholeInt(c, d1, first, |body|, body + rest, w);
    assert Run(c, d, w) == Run(c, d1, w);
    d' := d;
    if |body| <= MAX_STRING {
      d' := RunBytes(c, d1.(num := Number(|body|, P.LastShift(|body|, 7))), part, huffman, body, rest);
    }
  }

  /** The bytes of a string whose length has been read. */
  lemma RunBytes(c: Codec, d: Decoder, part: Part, huffman: bool, body: Bytes, rest: Bytes) returns (d': Decoder)
    requires Usable(c) && Decoding.Valid(c, d.(num := Number(d.num.left, 0))) && d.phase == ReadLen(part) && d.text.huffman == huffman
    requires 0 < |body| == d.num.left <= MAX_STRING
    ensures var r := Denoted(c.huff, huffman, body);
            var run := Then(c, IntDone(c, d), body + rest);
            if r.Rejected? || !r.accept then run == Fail([])
            else Has(d, d', part, r.out) && d'.text.hstate < |c.huff.decode| && HasName(d'.ctx, d'.lit)
                 && Size(d'.ctx.table) <= d'.ctx.max && run == Then(c, StringDone(c, d', part), rest)
  {
    var d2 := AtBody(d);
    assert IntDone(c, d) == Next(d2, []);
    PrependNothing(Run(c, d2, body + rest));
    RunSplit(c, d2, body, rest);
    d' := d2.(num := d2.num.(left := 0));
    hide Run, AtBody, IntDone;
    if huffman {
      d' := BytesHuff(c, d2, part, body);
    } else {
      d' := BytesRaw(c, d2, part, body);
    }
  }

  lemma BytesRaw(c: Codec, d: Decoder, part: Part, body: Bytes) returns (d': Decoder)
    requires Usable(c) && Decoding.Valid(c, d) && d.phase == ReadRaw(part) && 0 < |body| == d.num.left && Stored(d.text, part) == []
    ensures d' == d.(text := Store(d.text, part, body), num := d.num.(left := 0))
    ensures HasName(d'.ctx, d'.lit) && Run(c, d, body) == StringDone(c, d', part)
  {
    RunRaw(c, d, body);
    assert [] + body == body;
    d' := d.(text := Store(d.text, part, body), num := d.num.(left := 0));
  }

  lemma BytesHuff(c: Codec, d: Decoder, part: Part, body: Bytes) returns (d': Decoder)
    requires Usable(c) && Decoding.Valid(c, d) && d.phase == ReadHuff(part) && 0 < |body| == d.num.left && Stored(d.text, part) == []
    requires d.text.hstate == 0 && d.text.haccept
    ensures var r := H.Decode(c.huff, 0, true, body);
            if r.Rejected? || !r.accept then Run(c, d, body) == Fail([])
            else d' == d.(text := Store(d.text.(hstate := r.state, haccept := r.accept), part, r.out), num := d.num.(left := 0))
                 && HasName(d'.ctx, d'.lit) && d'.text.hstate < |c.huff.decode| && Run(c, d, body) == StringDone(c, d', part)
  {
    RunHuff(c, d, body);
    var r := H.Decode(c.huff, 0, true, body);
    d' := d;
    if r.Decoded? {
      assert [] + r.out == r.out;
      d' := d.(text := Store(d.text.(hstate := r.state, haccept := r.accept), part, r.out), num := d.num.(left := 0));
    }
  }

  // ---- Blocks that are cut off ----

  /** Once a header has begun, the decoder does not get back to the start of the block. */
  predicate Begun(p: Phase)
  {
    p != Start && p != ExpectTableSize && p != ReadTableSize
  }

  ghost predicate BegunStep(r: Step)
  {
    r.Next? ==> Begun(r.d.phase) && (r.d.phase == Opcode ==> |r.out| == 1)
  }

  lemma BegunInt(c: Codec, d: Decoder, b: Byte)
    requires Usable(c) && Decoding.Valid(c, d) && ReadsInt(d.phase) && d.phase != ReadTableSize
    ensures BegunStep(IntByte(c, d, b))
  {
    hide P.Resume;
  }

  lemma BegunString(c: Codec, d: Decoder, b: Byte)
    requires Usable(c) && Decoding.Valid(c, d) && (d.phase.ReadHuff? || d.phase.ReadRaw?) && d.num.left > 0
    ensures BegunStep(StringByte(c, d, b))
  {
    hide H.DecodeByte;
  }

  lemma StaysBegun(c: Codec, d: Decoder, b: Byte)
    requires Usable(c) && Decoding.Valid(c, d) && d.phase != ReadTableSize && (Begun(d.phase) || b / 32 != 1)
    ensures BegunStep(OnByte(c, d, b))
  {
    if ReadsInt(d.phase) {
      BegunInt(c, d, b);
    } else if d.phase.CheckLen? {
      BegunInt(c, ToLen(d, d.phase.part, b), b);
    } else if d.phase.ReadHuff? || d.phase.ReadRaw? {
      if d.num.left == 0 {
        BegunInt(c, ToLen(d, Value, b), b);
      } else {
        BegunString(c, d, b);
      }
    } else if OpcodeByte(d, b).Again? {
      BegunInt(c, OpcodeByte(d, b).d, b);
    }
    hide IntByte, StringByte;
  }

  lemma {:induction false} EmitsLast(c: Codec, d: Decoder, s: Bytes)
    requires Usable(c) && Decoding.Valid(c, d) && s != [] && d.phase != ReadTableSize && (Begun(d.phase) || s[0] / 32 != 1)
    ensures var r := Run(c, d, s); r.Next? ==> Begun(r.d.phase) && (r.d.phase == Opcode ==> r.out != [])
    decreases |s|
  {
    hide OnByte, Decoding.Valid;
    StaysBegun(c, d, s[0]);
    var r := OnByte(c, d, s[0]);
    if r.Next? {
      if |s| == 1 {
        RunOne(c, d, s);
      } else {
        EmitsLast(c, r.d, s[1..]);
      }
    }
  }

  lemma WholeHeader(c: Codec, d: Decoder, rep: Rep)
    requires Usable(c) && H.WellFormed(c.huff) && Decoding.Valid(c, d) && (d.phase == Start || d.phase == Opcode)
    requires !rep.SizeUpdate? && Small(rep) && STATIC_LENGTH + |d.ctx.table| <= UINT32_MAX
    requires rep.Indexed? || rep.IndexedName? ==> rep.idx < STATIC_LENGTH + |d.ctx.table|
    ensures var r := Run(c, d, Wire(c.huff, rep));
            r == Fail([]) || (r.Next? && r.d.phase == Opcode && |r.out| == 1)
  {
    var w := Wire(c.huff, rep);
    assert w + [] == w;
    var d' := RunHeader(c, d, rep, [], w);
    hide Wire;
  }

  /** A block that ends inside a header is refused at its end. */
  lemma CutOff(c: Codec, d: Decoder, rep: Rep, k: nat)
    requires Usable(c) && H.WellFormed(c.huff) && Decoding.Valid(c, d) && (d.phase == Start || d.phase == Opcode)
    requires !rep.SizeUpdate? && Small(rep) && STATIC_LENGTH + |d.ctx.table| <= UINT32_MAX
    requires rep.Indexed? || rep.IndexedName? ==> rep.idx < STATIC_LENGTH + |d.ctx.table|
    requires 0 < k < |Wire(c.huff, rep)|
    ensures EndBlock(Run(c, d, Wire(c.huff, rep)[..k])) == Fail([])
  {
    var w := Wire(c.huff, rep);
    var a, b := w[..k], w[k..];
    assert w == a + b;
    NoUpdate(c.huff, rep);
    WholeHeader(c, d, rep);
    hide Run, Wire, Decoding.Valid, Small;
    RunSplit(c, d, a, b);
    EmitsLast(c, d, a);
    var r := Run(c, d, a);
    if r.Next? {
      EmitsLast(c, r.d, b);
    }
  }

  // ---- Limits ----

  /** The table keeps to its limit, and the limit to the settings. */
  predicate Limited(ctx: Context)
  {
    Size(ctx.table) <= ctx.max <= ctx.settings
  }

  ghost predicate LimitedStep(settings: nat, r: Step)
  {
    r.Next? ==> Limited(r.d.ctx) && r.d.ctx.settings == settings
  }

  lemma LimitedInt(c: Codec, d: Decoder, b: Byte)
    requires Usable(c) && Decoding.Valid(c, d) && ReadsInt(d.phase) && Limited(d.ctx)
    ensures LimitedStep(d.ctx.settings, IntByte(c, d, b))
  {
    hide P.Resume;
  }

  lemma LimitedString(c: Codec, d: Decoder, b: Byte)
    requires Usable(c) && Decoding.Valid(c, d) && (d.phase.ReadHuff? || d.phase.ReadRaw?) && d.num.left > 0 && Limited(d.ctx)
    ensures LimitedStep(d.ctx.settings, StringByte(c, d, b))
  {
    hide H.DecodeByte;
  }

  lemma LimitedByte(c: Codec, d: Decoder, b: Byte)
    requires Usable(c) && Decoding.Valid(c, d) && Limited(d.ctx)
    ensures LimitedStep(d.ctx.settings, OnByte(c, d, b))
  {
    if ReadsInt(d.phase) {
      LimitedInt(c, d, b);
    } else if d.phase.CheckLen? {
      LimitedInt(c, ToLen(d, d.phase.part, b), b);
    } else if d.phase.ReadHuff? || d.phase.ReadRaw? {
      if d.num.left == 0 {
        LimitedInt(c, ToLen(d, Value, b), b);
      } else {
        LimitedString(c, d, b);
      }
    } else if OpcodeByte(d, b).Again? {
      LimitedInt(c, OpcodeByte(d, b).d, b);
    }
    hide IntByte, StringByte;
  }

  lemma {:induction false} LimitedRun(c: Codec, d: Decoder, s: Bytes)
    requires Usable(c) && Decoding.Valid(c, d) && Limited(d.ctx)
    ensures LimitedStep(d.ctx.settings, Run(c, d, s))
    decreases |s|
  {
    hide OnByte, Decoding.Valid;
    if s != [] {
      LimitedByte(c, d, s[0]);
      var r := OnByte(c, d, s[0]);
      if r.Next? {
        LimitedRun(c, r.d, s[1..]);
      }
    }
  }

  /** What happens to a decoder: input, the end of a block, or another limit from the settings. */
  datatype Deed = Feed(s: Bytes) | EndHeaders | Resize(size: nat)

  /** The decoder after some deeds, unless it has failed. A resize in the middle of a block is refused. */
  function After(c: Codec, deeds: seq<Deed>): (l: Life)
    requires Usable(c)
    ensures l.Alive? ==> Decoding.Valid(c, l.d)
    decreases |deeds|
  {
    if deeds == [] then Alive(NewDecoder())
    else
      var l, deed := After(c, deeds[..|deeds| - 1]), deeds[|deeds| - 1];
      if l.Dead? then Dead
      else
        match deed
        case Feed(s) => var r := Run(c, l.d, s); if r.Next? then Alive(r.d) else Dead
        case EndHeaders => Alive(l.d.(phase := Start))
        case Resize(size) => if l.d.phase == Start || l.d.phase == ExpectTableSize then Alive(DecoderResize(l.d, size)) else l
  }

  datatype Life = Dead | Alive(d: Decoder)

  /** The limit last taken from the settings. */
  function Settings(c: Codec, deeds: seq<Deed>): nat
    requires Usable(c)
    decreases |deeds|
  {
    if deeds == [] then DEFAULT_TABLE_SIZE
    else
      var before, deed := deeds[..|deeds| - 1], deeds[|deeds| - 1];
      var l := After(c, before);
      if deed.Resize? && l.Alive? && (l.d.phase == Start || l.d.phase == ExpectTableSize) then deed.size else Settings(c, before)
  }

  /** Whatever happens, the table never takes more than the settings last allowed. */
  lemma {:induction false} AlwaysLimited(c: Codec, deeds: seq<Deed>)
    requires Usable(c)
    ensures var l := After(c, deeds);
            l.Alive? ==> Size(l.d.ctx.table) <= l.d.ctx.max <= l.d.ctx.settings == Settings(c, deeds)
    decreases |deeds|
  {
    hide Run, Decoding.Valid;
    if deeds == [] {
    } else {
      var before, deed := deeds[..|deeds| - 1], deeds[|deeds| - 1];
      AlwaysLimited(c, before);
      var l := After(c, before);
      if l.Alive? && deed.Feed? {
        LimitedRun(c, l.d, deed.s);
      }
    }
  }
}
