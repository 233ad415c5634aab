/** The HPACK decoder as a machine that reads one byte at a time, and what a run of it emits. */
module Decoding {
  import opened Bits
  import opened HeaderTable
  import opened Encoding
  import H = Huffman
  import P = PrefixInt

  const MAX_STRING: nat := 65536

  datatype Part = Name | Value

  datatype Phase =
    | ExpectTableSize
    | Start
    | Opcode
    | ReadTableSize
    | ReadIndex
    | CheckLen(part: Part)
    | ReadLen(part: Part)
    | ReadHuff(part: Part)
    | ReadRaw(part: Part)

  datatype Op = OpNone | OpIndexed | OpNewName | OpIndName

  /** The dynamic table, its size limit, the limit from the settings, and the bound on the next size update. */
  datatype Context = Context(table: Table, max: nat, settings: nat, minMax: nat)

  /** What the first byte of a representation and its index said. */
  datatype Literal = Literal(op: Op, indexRequired: bool, noIndex: bool, index: nat)

  /** The integer, or the count of string bytes, being read; `shift` is the weight of the next group. */
  datatype Number = Number(left: nat, shift: nat)

  /** The strings being read and the Huffman context. */
  datatype Text = Text(huffman: bool, hstate: nat, haccept: bool, name: Bytes, value: Bytes)

  /** The state of `nghttp2_hd_inflater` between two bytes. */
  datatype Decoder = Decoder(ctx: Context, phase: Phase, lit: Literal, num: Number, text: Text)

  /** A header handed to the application. */
  datatype Emitted = Emitted(field: Field, noIndex: bool)

  /** Where reading leads, and the headers emitted on the way. */
  datatype Step =
    | Fail(out: seq<Emitted>)      // `NGHTTP2_ERR_HEADER_COMP`
    | Undefined(out: seq<Emitted>) // an integer shift C leaves undefined
    | Next(d: Decoder, out: seq<Emitted>)

  /** `nghttp2_hd_inflate_init`. */
  function NewDecoder(): Decoder
  {
    Decoder(Context([], DEFAULT_TABLE_SIZE, DEFAULT_TABLE_SIZE, UINT32_MAX), Start,
            Literal(OpNone, false, false, 0), Number(0, 0), Text(false, 0, true, [], []))
  }

  predicate ReadsInt(p: Phase)
  {
    p == ReadTableSize || p == ReadIndex || p.ReadLen?
  }

  predicate ReadsName(p: Phase)
  {
    (p.CheckLen? || p.ReadLen? || p.ReadHuff? || p.ReadRaw?) && p.part == Name
  }

  predicate ReadsValue(p: Phase)
  {
    (p.CheckLen? || p.ReadLen? || p.ReadHuff? || p.ReadRaw?) && p.part == Value
  }

  /** The name of the header being read is known: sent literally, or at a valid index. */
  predicate HasName(ctx: Context, lit: Literal)
  {
    lit.op == OpNewName || (lit.op == OpIndName && lit.index < STATIC_LENGTH + |ctx.table|)
  }

  /** What holds between two bytes. */
  ghost predicate Valid(c: Codec, d: Decoder)
  {
    && d.text.hstate < |c.huff.decode|
    && d.num.left <= UINT32_MAX
    && Size(d.ctx.table) <= d.ctx.max
    && (ReadsInt(d.phase) && d.num.left == 0 ==> d.num.shift == 0)
    && (d.phase == ReadIndex ==> d.lit.op == OpIndexed || d.lit.op == OpIndName)
    && (ReadsName(d.phase) ==> d.lit.op == OpNewName)
    && (ReadsValue(d.phase) ==> HasName(d.ctx, d.lit))
    && (d.phase == ReadHuff(Value) || d.phase == ReadRaw(Value) ==> d.num.left > 0)
    && (d.phase == ReadHuff(Name) && d.num.left == 0 ==> d.text.haccept)
  }

  /** A step from a valid state leads to valid states only. */
  ghost predicate Keeps(c: Codec, r: Step)
  {
    r.Next? ==> Valid(c, r.d)
  }

  // ---- Strings ----

  function Store(t: Text, part: Part, s: Bytes): Text
  {
    if part == Name then t.(name := s) else t.(value := s)
  }

  function Stored(t: Text, part: Part): Bytes
  {
    if part == Name then t.name else t.value
  }

  /** The header a literal stands for. */
  function FieldOf(c: Codec, ctx: Context, lit: Literal, text: Text): Field
    requires Usable(c) && HasName(ctx, lit)
  {
    Field(if lit.op == OpNewName then text.name else At(c.dict, ctx.table, lit.index).name, text.value)
  }

  /** The table with a header added, if the representation says so. */
  function Indexing(ctx: Context, lit: Literal, f: Field): (ctx': Context)
    ensures Size(ctx.table) <= ctx.max ==> Size(ctx'.table) <= ctx'.max
  {
    if lit.indexRequired then ctx.(table := Add(ctx.table, f, ctx.max)) else ctx
  }

  /** `hd_inflate_commit_newname`, `hd_inflate_commit_indname`. */
  function Commit(c: Codec, d: Decoder): (r: Step)
    requires Usable(c) && HasName(d.ctx, d.lit) && Size(d.ctx.table) <= d.ctx.max && d.text.hstate < |c.huff.decode|
    requires d.num.left == 0
    ensures Keeps(c, r)
  {
    var f := FieldOf(c, d.ctx, d.lit, d.text);
    Next(d.(phase := Opcode, ctx := Indexing(d.ctx, d.lit, f)), [Emitted(f, d.lit.noIndex)])
  }

  /** A string is complete: a name leads on to the value, a value commits the header. */
  function StringDone(c: Codec, d: Decoder, part: Part): (r: Step)
    requires Usable(c) && HasName(d.ctx, d.lit) && Size(d.ctx.table) <= d.ctx.max && d.text.hstate < |c.huff.decode|
    requires d.num.left == 0
    ensures Keeps(c, r)
  {
    if part == Name then Next(d.(phase := CheckLen(Value)), []) else Commit(c, d)
  }

  /** `n` more bytes of a string literal were read and stand for `more`. */
  function Received(c: Codec, d: Decoder, more: Bytes, n: nat): (r: Step)
    requires Usable(c) && Valid(c, d) && (d.phase.ReadHuff? || d.phase.ReadRaw?) && 0 < n <= d.num.left
    ensures Keeps(c, r)
  {
    var d' := d.(text := Store(d.text, d.phase.part, Stored(d.text, d.phase.part) + more),
                 num := d.num.(left := d.num.left - n));
    if d.num.left == n then StringDone(c, d', d.phase.part) else Next(d', [])
  }

  /** The same for Huffman-coded bytes: the string must not end inside a code. */
  function ReceivedHuff(c: Codec, d: Decoder, r: H.Decoded, n: nat): (r': Step)
    requires Usable(c) && Valid(c, d) && d.phase.ReadHuff? && 0 < n <= d.num.left
    requires r.Decoded? ==> r.state < |c.huff.decode|
    ensures Keeps(c, r')
  {
    if r.Rejected? || (d.num.left == n && !r.accept) then Fail([])
    else Received(c, d.(text := d.text.(hstate := r.state, haccept := r.accept)), r.out, n)
  }

  /** One byte of a string literal. */
  function StringByte(c: Codec, d: Decoder, b: Byte): (r: Step)
    requires Usable(c) && Valid(c, d) && (d.phase.ReadHuff? || d.phase.ReadRaw?) && d.num.left > 0
    ensures Keeps(c, r)
  {
    if d.phase.ReadHuff? then ReceivedHuff(c, d, H.DecodeByte(c.huff, d.text.hstate, b), 1)
    else Received(c, d, [b], 1)
  }

  // ---- Integers ----

  /** The prefix `hd_inflate_read_len` is called with, and its bound. */
  function IntBits(d: Decoder): nat
  {
    if d.phase == ReadTableSize then 5
    else if d.phase == ReadIndex && d.lit.op != OpIndexed then (if d.lit.indexRequired then 6 else 4)
    else 7
  }

  function IntMax(d: Decoder): nat
  {
    match d.phase
    case ReadTableSize => Min(d.ctx.minMax, d.ctx.settings)
    case ReadIndex => |d.ctx.table| + STATIC_LENGTH
    case _ => MAX_STRING
  }

  /** A size update takes effect. */
  function Resized(ctx: Context, size: nat): (ctx': Context)
    ensures Size(ctx'.table) <= ctx'.max
  {
    ctx.(minMax := UINT32_MAX, max := size, table := Evict(ctx.table, size))
  }

  /** An index is known: the header is emitted, or the value of a literal follows. */
  function IndexDone(c: Codec, d: Decoder): (r: Step)
    requires Usable(c) && d.num.left <= STATIC_LENGTH + |d.ctx.table|
  {
    if d.num.left == 0 then Fail([])
    else
      var d' := d.(lit := d.lit.(index := d.num.left - 1));
      if d.lit.op == OpIndexed then Next(d'.(phase := Opcode), [Emitted(At(c.dict, d.ctx.table, d.num.left - 1), false)])
      else Next(d'.(phase := CheckLen(Value)), [])
  }

  /** A string length is known; its bytes come next. */
  function AtBody(d: Decoder): Decoder
    requires d.phase.ReadLen?
  {
    var part := d.phase.part;
    var text := Store(d.text, part, []);
    if d.text.huffman then d.(phase := ReadHuff(part), text := text.(hstate := 0, haccept := true))
    else d.(phase := ReadRaw(part), text := text)
  }

  /** An empty value is complete at once. */
  function LenDone(c: Codec, d: Decoder): (r: Step)
    requires Usable(c) && d.phase.ReadLen? && Valid(c, d.(num := Number(d.num.left, 0)))
    ensures Keeps(c, r)
  {
    if d.phase.part == Value && d.num.left == 0 then Commit(c, AtBody(d)) else Next(AtBody(d), [])
  }

  /** The integer in `d.num.left` is complete. */
  function IntDone(c: Codec, d: Decoder): (r: Step)
    requires Usable(c) && ReadsInt(d.phase) && Valid(c, d.(num := Number(d.num.left, 0))) && d.num.left <= IntMax(d)
    ensures Keeps(c, r)
  {
    match d.phase
    case ReadTableSize => Next(d.(ctx := Resized(d.ctx, d.num.left), phase := Start), [])
    case ReadIndex => IndexDone(c, d)
    case ReadLen(_) => LenDone(c, d)
  }

  /** What `hd_inflate_read_len` makes of the outcome of the integer decoder. */
  function AfterInt(c: Codec, d: Decoder, o: P.Outcome): (r: Step)
    requires Usable(c) && Valid(c, d) && ReadsInt(d.phase)
    requires o.Complete? ==> o.value <= UINT32_MAX
    requires o.Incomplete? ==> 0 < o.value <= UINT32_MAX
    ensures Keeps(c, r)
  {
    match o
    case Undefined => Undefined([])
    case Overflow => Fail([])
    case Incomplete(v, sh) => if v > IntMax(d) then Fail([]) else Next(d.(num := Number(v, sh)), [])
    case Complete(v, _, sh) => if v > IntMax(d) then Fail([]) else IntDone(c, d.(num := Number(v, sh)))
  }

  /** One byte of an integer. */
  function IntByte(c: Codec, d: Decoder, b: Byte): (r: Step)
    requires Usable(c) && Valid(c, d) && ReadsInt(d.phase)
    ensures Keeps(c, r)
  {
    AfterInt(c, d, P.Resume(d.num.left, d.num.shift, [b], IntBits(d)))
  }

  // ---- The machine ----

  /** About to read a string length, whose first byte carries the Huffman flag. */
  function ToLen(d: Decoder, part: Part, b: Byte): Decoder
  {
    d.(phase := ReadLen(part), num := Number(0, 0), text := d.text.(huffman := b >= 0x80))
  }

  /** The first byte of a representation: where it leads, and whether it is read again as an integer. */
  datatype Opened = Refused | Again(d: Decoder) | Taken(d: Decoder)

  function OpcodeByte(d: Decoder, b: Byte): Opened
  {
    var d' := d.(num := Number(0, 0));
    if b / 32 == 1 then
      if d.phase == Opcode then Refused else Again(d'.(lit := d.lit.(op := OpIndexed), phase := ReadTableSize))
    else if d.phase == ExpectTableSize then Refused
    else if b >= 0x80 then Again(d'.(lit := d.lit.(op := OpIndexed), phase := ReadIndex))
    else if b == 0x40 || b == 0 || b == 0x10 then
      Taken(d'.(lit := Literal(OpNewName, b == 0x40, b == 0x10, d.lit.index), phase := CheckLen(Name)))
    else Again(d'.(lit := Literal(OpIndName, b >= 0x40, b / 16 == 1, d.lit.index), phase := ReadIndex))
  }

  /** `nghttp2_hd_inflate_hd_nv`, one byte. */
  function OnByte(c: Codec, d: Decoder, b: Byte): (r: Step)
    requires Usable(c) && Valid(c, d)
    ensures Keeps(c, r)
  {
    if ReadsInt(d.phase) then IntByte(c, d, b)
    else if d.phase.CheckLen? then IntByte(c, ToLen(d, d.phase.part, b), b)
    else if d.phase.ReadHuff? || d.phase.ReadRaw? then
      if d.num.left == 0 then IntByte(c, ToLen(d, Value, b), b) else StringByte(c, d, b)
    else
      match OpcodeByte(d, b)
      case Refused => Fail([])
      case Again(d') => IntByte(c, d', b)
      case Taken(d') => Next(d', [])
  }

  /** A whole run: the final state and everything emitted on the way. */
  function Run(c: Codec, d: Decoder, s: Bytes): (r: Step)
    requires Usable(c) && Valid(c, d)
    ensures Keeps(c, r)
    decreases |s|, 0
  {
    if s == [] then Next(d, []) else Then(c, OnByte(c, d, s[0]), s[1..])
  }

  /** Goes on after a step. */
  function Then(c: Codec, r: Step, s: Bytes): (r': Step)
    requires Usable(c) && Keeps(c, r)
    ensures Keeps(c, r')
    decreases |s|, 1
  {
    if r.Next? then Prepend(r.out, Run(c, r.d, s)) else r
  }

  function Prepend(out: seq<Emitted>, r: Step): Step
  {
    r.(out := out + r.out)
  }

  lemma PrependNothing(r: Step)
    ensures Prepend([], r) == r
  {
    assert [] + r.out == r.out;
  }

  lemma PrependTwice(a: seq<Emitted>, b: seq<Emitted>, r: Step)
    ensures Prepend(a, Prepend(b, r)) == Prepend(a + b, r)
  {
    assert a + (b + r.out) == a + b + r.out;
  }

  /** Split independence: reading the input in two pieces is reading it in one. */
  lemma {:induction false} RunSplit(c: Codec, d: Decoder, a: Bytes, b: Bytes)
    requires Usable(c) && Valid(c, d)
    ensures Run(c, d, a + b) == Then(c, Run(c, d, a), b)
    decreases |a|
  {
    if a == [] {
      assert a + b == b;
      PrependNothing(Run(c, d, b));
    } else {
      assert (a + b)[0] == a[0] && (a + b)[1..] == a[1..] + b;
      var r := OnByte(c, d, a[0]);
      if r.Next? {
        RunSplit(c, r.d, a[1..], b);
        var r' := Run(c, r.d, a[1..]);
        if r'.Next? {
          PrependTwice(r.out, r'.out, Run(c, r'.d, b));
        }
      }
    }
  }

  function Concat(pieces: seq<Bytes>): Bytes
  {
    if pieces == [] then [] else pieces[0] + Concat(pieces[1..])
  }

  /** One call after another, the first with the given outcome so far. */
  function Feed(c: Codec, r: Step, pieces: seq<Bytes>): (r': Step)
    requires Usable(c) && Keeps(c, r)
    ensures Keeps(c, r')
    decreases |pieces|
  {
    if pieces == [] then r else Feed(c, Then(c, r, pieces[0]), pieces[1..])
  }

  /** However the input is cut into pieces, the outcome is that of the whole. */
  lemma {:induction false} FeedAny(c: Codec, r: Step, pieces: seq<Bytes>)
    requires Usable(c) && Keeps(c, r)
    ensures Feed(c, r, pieces) == Then(c, r, Concat(pieces))
    decreases |pieces|
  {
    if pieces == [] {
      assert r.out + [] == r.out;
    } else {
      var rest := Concat(pieces[1..]);
      FeedAny(c, Then(c, r, pieces[0]), pieces[1..]);
      if r.Next? {
        RunSplit(c, r.d, pieces[0], rest);
        var r' := Run(c, r.d, pieces[0]);
        if r'.Next? {
          PrependTwice(r.out, r'.out, Run(c, r'.d, rest));
        }
      }
    }
  }

  // ---- Between blocks ----

  /** `nghttp2_hd_inflate_change_table_size`, allowed at the start of a block only. */
  function DecoderResize(d: Decoder, size: nat): Decoder
    requires d.phase == Start || d.phase == ExpectTableSize
  {
    var shrinks := d.ctx.max > size;
    d.(phase := if shrinks then ExpectTableSize else d.phase,
       ctx := Context(Evict(d.ctx.table, size), size, size, if shrinks then size else d.ctx.minMax))
  }

  /** A block is complete where a header may start; the next one begins afresh. */
  function EndBlock(r: Step): Step
  {
    if r.Next? then if r.d.phase == Start || r.d.phase == Opcode then r.(d := r.d.(phase := Start)) else Fail(r.out)
    else r
  }

  /** A whole block with `in_final` set, then `nghttp2_hd_inflate_end_headers`. */
  function Inflate(c: Codec, d: Decoder, block: Bytes): Step
    requires Usable(c) && Valid(c, d)
  {
    EndBlock(Run(c, d, block))
  }
}
