/** The HPACK decoder `nghttp2_hd_inflater`. */
module Inflaters {
  import opened Bits
  import opened HeaderTable
  import opened RingBuffers
  import opened HdMaps
  import opened HdContexts
  import opened Encoding
  import opened Decoding
  import opened Reading
  import opened Feeding
  import H = Huffman
  import P = PrefixInt

  /** What a buffer holds. */
  ghost function Written(buf: array<Byte>, last: nat): Bytes
    reads buf
  {
    if last <= buf.Length then buf[..last] else []
  }

  /** Cases that consume nothing lower this. */
  function Rank(p: Phase): nat
  {
    if Between(p) then 2 else if p == ReadHuff(Name) || p == ReadRaw(Name) then 1 else 0
  }

  class Inflater {
    const c: Codec
    const ctx: HdContext
    var settings: nat            // `settings_hd_table_bufsize_max`
    var minMax: nat              // `min_hd_table_bufsize_max`
    var phase: Phase             // `state`
    var op: Op                   // `opcode`
    var indexRequired: bool
    var noIndex: bool
    var index: nat
    var left: nat
    var shift: nat
    var huffman: bool            // `huffman_encoded`
    var hstate: nat              // `huff_decode_ctx`
    var haccept: bool
    var nameBuf: array<Byte>     // `namebuf` over the memory of `namercbuf`
    var nameLast: nat
    var valueBuf: array<Byte>    // `valuebuf` over the memory of `valuercbuf`
    var valueLast: nat

    /** The buffers hold what is still to be written into them, with a byte to spare. */
    ghost predicate Roomy()
      reads this
    {
      && nameLast <= nameBuf.Length && valueLast <= valueBuf.Length && nameBuf != valueBuf
      && (phase == ReadHuff(Name) ==> nameLast + 2 * left < nameBuf.Length)
      && (phase == ReadRaw(Name) ==> nameLast + left < nameBuf.Length)
      && (phase == ReadHuff(Value) ==> valueLast + 2 * left < valueBuf.Length)
      && (phase == ReadRaw(Value) ==> valueLast + left < valueBuf.Length)
    }

    ghost predicate Sane()
      reads this, ctx, ctx.ring, ctx.ring.buffer, ctx.ring.contents
    {
      && Usable(c) && ctx.index == null && ctx.Valid() && settings <= UINT32_MAX && minMax <= UINT32_MAX && Roomy()
    }

    /** The decoder as a value. */
    ghost function State(): Decoder
      reads this, ctx, ctx.ring, nameBuf, valueBuf
    {
      Decoder(Context(ctx.Table(), ctx.bufsizeMax, settings, minMax), phase,
              Literal(op, indexRequired, noIndex, index), Number(left, shift),
              Text(huffman, hstate, haccept, Written(nameBuf, nameLast), Written(valueBuf, valueLast)))
    }

    ghost predicate Valid()
      reads this, ctx, ctx.ring, ctx.ring.buffer, ctx.ring.contents, nameBuf, valueBuf
    {
      Sane() && Settled(c, State())
    }

    /** Everything the decoder changes. */
    ghost function Objects(): set<object>
      reads this, ctx, ctx.ring
    {
      {this, nameBuf, valueBuf} + ctx.Objects()
    }

    /** `nghttp2_hd_inflate_init` */
    constructor (c: Codec)
      requires Usable(c)
      ensures Resumable() && State() == NewDecoder() && !ctx.bad && this.c == c
      ensures fresh(Objects())
    {
      this.c := c;
      ctx := new HdContext(null);
      settings, minMax := 4096, UINT32_MAX;
      op, phase := OpNone, Start;
      nameBuf, nameLast := new Byte[0], 0;
      valueBuf, valueLast := new Byte[0], 0;
      huffman, hstate, haccept, index, left, shift := false, 0, true, 0, 0, 0;
      indexRequired, noIndex := false, false;
    }

    /** `hd_inflate_set_huffman_encoded` and the reset before a length. */
    method StartLen(part: Part, b: Byte)
      requires Sane() && phase == CheckLen(part)
      modifies this`huffman, this`phase, this`left, this`shift
      ensures Sane() && State() == ToLen(old(State()), part, b)
    {
      hide HdContext.Valid, Usable, HdContext.Table;
      huffman := b >= 0x80;
      phase := ReadLen(part);
      left, shift := 0, 0;
    }

    /** `hd_inflate_read_len` */
    method ReadLength(src: Bytes, from: nat, prefix: nat, maxlen: nat) returns (ok: bool, rfin: bool, read: nat)
      requires Sane() && 1 <= prefix <= 7 && from < |src| && left <= UINT32_MAX && (left == 0 ==> shift == 0)
      requires ReadsInt(phase) && P.Resume(left, shift, src[from..], prefix) != P.Undefined
      modifies this`left, this`shift
      ensures Sane()
      ensures var o := P.Resume(old(left), old(shift), src[from..], prefix);
              && (!ok <==> o == P.Overflow || o.value > maxlen)
              && (ok ==> State() == old(State()).(num := Number(o.value, o.shift)))
              && (ok && rfin ==> o.Complete? && o.used == read)
              && (ok && !rfin ==> o.Incomplete? && from + read == |src|)
    {
      hide HdContext.Valid, Usable, HdContext.Table, P.Resume;
      var out, sh;
      ok, out, sh, rfin, read := P.DecodeLength(left, shift, src, from, prefix);
      if !ok || out > maxlen {
        return false, false, 0;
      }
      left, shift := out, sh;
    }

    // ---- The cases of the switch in `nghttp2_hd_inflate_hd_nv` ----

    /** What the first byte of a literal sets. */
    method OpenLiteral(b: Byte) returns (again: bool)
      requires Sane() && Between(phase)
      modifies this`op, this`phase, this`indexRequired, this`noIndex
      ensures Sane() && again == !(b == 0x40 || b == 0 || b == 0x10)
      ensures State() == old(State()).(lit := Literal(if again then OpIndName else OpNewName, b >= 0x40, b / 16 == 1, old(index)),
                                       phase := if again then ReadIndex else CheckLen(Name))
    {
      hide HdContext.Valid, Usable, HdContext.Table;
      again := true;
      if b == 0x40 || b == 0 || b == 0x10 {
        op, phase, again := OpNewName, CheckLen(Name), false;
      } else {
        op, phase := OpIndName, ReadIndex;
      }
      indexRequired := b >= 0x40;
      noIndex := b / 16 == 1;
    }

    method SetIndexed(p: Phase)
      requires Sane() && (p == ReadTableSize || p == ReadIndex)
      modifies this`op, this`phase
      ensures Sane() && State() == old(State()).(lit := old(State()).lit.(op := OpIndexed), phase := p)
    {
      hide HdContext.Valid, Usable, HdContext.Table;
      op, phase := OpIndexed, p;
    }

    method ResetNumber()
      requires Sane() && !(phase.ReadHuff? || phase.ReadRaw?)
      modifies this`left, this`shift
      ensures Sane() && State() == old(State()).(num := Number(0, 0))
    {
      hide HdContext.Valid, Usable, HdContext.Table;
      left, shift := 0, 0;
    }

    /** What the first byte of a representation sets. */
    method Open(b: Byte) returns (ok: bool, again: bool)
      requires Sane() && Between(phase)
      modifies this`op, this`phase, this`indexRequired, this`noIndex, this`left, this`shift
      ensures Sane()
      ensures var o := OpcodeByte(old(State()), b);
              && (ok <==> !o.Refused?)
              && (ok ==> (again <==> o.Again?) && o.d == State())
    {
      hide Sane, Roomy;
      ok, again := true, true;
      if phase == ExpectTableSize && b / 32 != 1 {
        return false, false;
      }
      if b / 32 == 1 {
        if phase == Opcode {
          return false, false;
        }
        SetIndexed(ReadTableSize);
      } else if b >= 0x80 {
        SetIndexed(ReadIndex);
      } else {
        again := OpenLiteral(b);
      }
      ResetNumber();
    }

    method OnOpcode(src: Bytes, i: nat) returns (w: Switch, i': nat)
      requires Valid() && Between(phase) && i < |src| && Defined(c, State(), src[i..])
      modifies this`op, this`phase, this`indexRequired, this`noIndex, this`left, this`shift
      ensures Sane() && i <= i' <= |src| && Does(c, old(State()), src[i..], w, State(), src[i'..])
      ensures w == Continued ==> (i' > i || Rank(phase) == 0) && !phase.ReadHuff? && !phase.ReadRaw?
      ensures w == Continued || w == Rejected
    {
      assert Usable(c) && Decoding.Valid(c, State());
      ghost var d, s := State(), src[i..];
      OpcodeDoes(c, d, s);
      hide *;
      assert s[0] == src[i] && s[1..] == src[i + 1..];
      var ok, again := Open(src[i]);
      OpenedPhase(d, src[i]);
      Shows();
      if !ok {
        RejectedAnyhow(c, d, s, d, State(), s);
        return Rejected, i;
      }
      return Continued, if again then i else i + 1;
    }

    /** What a valid state gives without looking into it. */
    lemma Knows()
      requires Valid()
      ensures Sane() && Usable(c) && Roomy() && Settled(c, State()) && hstate < |c.huff.decode|
      ensures State().num == Number(left, shift) && State().phase == phase && State().text.hstate == hstate
    {
    }

    /** Which fields the parts of the state are. */
    lemma Shows()
      requires Sane()
      ensures State().num == Number(left, shift) && State().phase == phase && State().lit.op == op
      ensures State().ctx.table == ctx.Table()
    {
    }

    /**
     * The part all integers share: an integer that is out of bounds or not complete ends the call,
     * `Continued` says that it is complete.
     */
    method ReadInteger(src: Bytes, i: nat, prefix: nat, maxlen: nat) returns (w: Switch, i': nat)
      requires Valid() && ReadsInt(phase) && i < |src| && Decoding.Valid(c, State()) && Defined(c, State(), src[i..])
      requires IntBits(State()) == prefix && IntMax(State()) == maxlen
      modifies this`left, this`shift
      ensures Sane() && i <= i' <= |src| && (w.Continued? || w.Starved? || w.Rejected?)
      ensures w != Continued ==> Does(c, old(State()), src[i..], w, State(), src[i'..])
      ensures w == Continued ==>
                var d, s := old(State()), src[i..];
                var o := P.Resume(d.num.left, d.num.shift, s, prefix);
                i < i' && o.Complete? && left == o.value <= maxlen && s[o.used..] == src[i'..]
                && State() == d.(num := Number(o.value, o.shift))
    {
      ghost var d, s := State(), src[i..];
      assert Usable(c) && left <= UINT32_MAX && (left == 0 ==> shift == 0) && ReadsInt(d.phase);
      Shows();
      hide *;
      ghost var o := P.Resume(d.num.left, d.num.shift, s, IntBits(d));
      IntStops(c, d, s, o);
      var ok, rfin, read := ReadLength(src, i, prefix, maxlen);
      Shows();
      if !ok {
        RejectedAnyhow(c, d, s, d, State(), s);
        return Rejected, i;
      }
      i' := i + read;
      assert src[i'..] == if rfin then s[o.used..] else [];
      return if rfin then Continued else Starved, i';
    }

    /** A new table size takes effect. */
    method ApplyTableSize()
      requires Sane() && phase == ReadTableSize && left <= UINT32_MAX
      modifies this`minMax, this`phase, ctx, ctx.ring, ctx.ring.contents
      ensures Sane() && State() == old(State()).(ctx := Resized(old(State()).ctx, left), phase := Start)
      ensures ctx.ring.buffer == old(ctx.ring.buffer) && ctx.bad == old(ctx.bad)
      ensures ctx.ring.contents <= old(ctx.ring.contents)
    {
      hide HdContext.Valid, Evict, Usable, Fields;
      minMax := UINT32_MAX;
      ShrinkTo(left);
      phase := Start;
    }

    method OnTableSize(src: Bytes, i: nat) returns (w: Switch, i': nat)
      requires Valid() && phase == ReadTableSize && i < |src| && Defined(c, State(), src[i..])
      modifies this`left, this`shift, this`minMax, this`phase, ctx, ctx.ring, ctx.ring.contents
      ensures Sane() && i <= i' <= |src| && Does(c, old(State()), src[i..], w, State(), src[i'..])
      ensures w == Continued ==> i' > i && phase == Start
      ensures ctx.ring.buffer == old(ctx.ring.buffer) && ctx.bad == old(ctx.bad)
      ensures ctx.ring.contents <= old(ctx.ring.contents)
    {
      ghost var d, s := State(), src[i..];
      assert Usable(c) && Decoding.Valid(c, d) && IntBits(d) == 5 && IntMax(d) == Min(minMax, settings) && ReadsInt(d.phase);
      hide *;
      w, i' := ReadInteger(src, i, 5, if minMax < settings then minMax else settings);
      if w == Continued {
        IntDoes(c, d, s, P.Resume(d.num.left, d.num.shift, s, IntBits(d)));
        ApplyTableSize();
      }
    }

    /** `nghttp2_hd_table_get` */
    method TableGet(idx: nat) returns (f: Field)
      requires Sane() && idx < STATIC_LENGTH + |ctx.Table()|
      ensures f == At(c.dict, ctx.Table(), idx)
    {
      if idx >= STATIC_LENGTH {
        var e := ctx.ring.Get(idx - STATIC_LENGTH);
        f := e.field;
      } else {
        f := c.dict.entries[idx];
      }
    }

    /** The index that was read, counted from zero. */
    method TakeIndex(next: Phase)
      requires Sane() && left > 0 && (next == Opcode || next == CheckLen(Value))
      modifies this`index, this`phase
      ensures Sane() && State() == old(State()).(lit := old(State()).lit.(index := left - 1), phase := next)
    {
      hide HdContext.Valid, Usable, HdContext.Table;
      index := left;
      index := index - 1;
      phase := next;
    }

    /** An index is known: the header it names, or the name of a literal; zero is no index. */
    method FinishIndex() returns (w: Switch)
      requires Sane() && phase == ReadIndex && left <= STATIC_LENGTH + |ctx.Table()|
      modifies this`index, this`phase
      ensures Sane() && IndexTaken(c, old(State()), w, State())
    {
      hide Sane, HdContext.Table;
      if left == 0 {
        return Rejected;
      }
      if op == OpIndexed {
        TakeIndex(Opcode);
        var f := TableGet(index);
        return Emitting(Emitted(f, false));
      } else {
        TakeIndex(CheckLen(Value));
        return Continued;
      }
    }

    method OnIndex(src: Bytes, i: nat) returns (w: Switch, i': nat)
      requires Valid() && phase == ReadIndex && i < |src| && Defined(c, State(), src[i..])
      modifies this`left, this`shift, this`index, this`phase
      ensures Sane() && i <= i' <= |src| && Does(c, old(State()), src[i..], w, State(), src[i'..])
      ensures w == Continued ==> i' > i && phase == CheckLen(Value)
    {
      ghost var d, s := State(), src[i..];
      assert Usable(c) && Decoding.Valid(c, d) && IntMax(d) == MaxIndex() == STATIC_LENGTH + |d.ctx.table| && ReadsInt(d.phase);
      assert IntBits(d) == if op == OpIndexed then 7 else if indexRequired then 6 else 4;
      Shows();
      hide *;
      w, i' := ReadInteger(src, i, if op == OpIndexed then 7 else if indexRequired then 6 else 4, MaxIndex());
      if w != Continued {
        return;
      }
      ghost var d1 := State();
      w := FinishIndex();
      IndexDoes(c, d, s, P.Resume(d.num.left, d.num.shift, s, IntBits(d)), d1, w, State());
      IndexTakenPhase(c, d1, w, State());
      Shows();
    }

    /** `get_max_index` */
    function MaxIndex(): nat
      reads this, ctx, ctx.ring
    {
      ctx.ring.len + STATIC_LENGTH
    }

    /** The memory for a string whose length is known. */
    method StartBody(part: Part)
      requires Sane() && phase == ReadLen(part)
      modifies this
      ensures Sane() && State() == AtBody(old(State()))
      ensures nameBuf == old(nameBuf) || fresh(nameBuf)
      ensures valueBuf == old(valueBuf) || fresh(valueBuf)
    {
      hide Sane, Roomy, HdContext.Table;
      var size := if huffman then left * 2 + 1 else left + 1;
      if part == Name {
        NewName(size);
      } else {
        NewValue(size);
      }
      BodyPhase(part);
    }

    method NewName(size: nat)
      requires Sane() && phase == ReadLen(Name)
      modifies this`nameBuf, this`nameLast
      ensures Sane() && fresh(nameBuf) && nameBuf.Length == size && nameLast == 0
      ensures State() == old(State()).(text := old(State()).text.(name := []))
    {
      hide HdContext.Valid, Usable, HdContext.Table;
      nameBuf, nameLast := new Byte[size], 0;
    }

    method NewValue(size: nat)
      requires Sane() && phase == ReadLen(Value)
      modifies this`valueBuf, this`valueLast
      ensures Sane() && fresh(valueBuf) && valueBuf.Length == size && valueLast == 0
      ensures State() == old(State()).(text := old(State()).text.(value := []))
    {
      hide HdContext.Valid, Usable, HdContext.Table;
      valueBuf, valueLast := new Byte[size], 0;
    }

    method BodyPhase(part: Part)
      requires Sane() && phase == ReadLen(part) && Stored(State().text, part) == []
      requires (if part == Name then nameBuf else valueBuf).Length > if huffman then left * 2 else left
      modifies this`phase, this`hstate, this`haccept
      ensures Sane() && State() == AtBody(old(State()))
    {
      hide HdContext.Valid, Usable, HdContext.Table;
      if huffman {
        hstate, haccept := 0, true;
        phase := ReadHuff(part);
      } else {
        phase := ReadRaw(part);
      }
    }

    method OnLength(part: Part, src: Bytes, i: nat) returns (w: Switch, i': nat)
      requires Valid() && phase == ReadLen(part) && i < |src| && Defined(c, State(), src[i..])
      modifies this
      ensures Sane() && i <= i' <= |src| && Does(c, old(State()), src[i..], w, State(), src[i'..])
      ensures w == Continued ==> i' > i && (phase == ReadHuff(part) || phase == ReadRaw(part))
      ensures nameBuf == old(nameBuf) || fresh(nameBuf)
      ensures valueBuf == old(valueBuf) || fresh(valueBuf)
    {
      ghost var d, s := State(), src[i..];
      assert Usable(c) && Decoding.Valid(c, d) && IntBits(d) == 7 && IntMax(d) == MAX_STRING && ReadsInt(d.phase);
      hide *;
      w, i' := ReadInteger(src, i, 7, MAX_STRING);
      if w == Continued {
        IntDoes(c, d, s, P.Resume(d.num.left, d.num.shift, s, IntBits(d)));
        Shows();
        BodyPhases(State());
        StartBody(part);
        Shows();
      }
    }

    /** The length of a string, beginning with the Huffman flag. */
    method OnCheckLen(part: Part, src: Bytes, i: nat) returns (w: Switch, i': nat)
      requires Valid() && phase == CheckLen(part) && i < |src| && Defined(c, State(), src[i..])
      modifies this
      ensures Sane() && i <= i' <= |src| && Does(c, old(State()), src[i..], w, State(), src[i'..])
      ensures w == Continued ==> i' > i && (phase == ReadHuff(part) || phase == ReadRaw(part))
      ensures nameBuf == old(nameBuf) || fresh(nameBuf)
      ensures valueBuf == old(valueBuf) || fresh(valueBuf)
    {
      ghost var d, s := State(), src[i..];
      assert Usable(c) && Decoding.Valid(c, d) && s[0] == src[i];
      CheckLenDoes(c, d, s);
      hide *;
      StartLen(part, src[i]);
      ghost var d1 := State();
      StartedLen(c, d, s, d1);
      w, i' := OnLength(part, src, i);
      DoesTwice(c, d, s, d1, s, w, State(), src[i'..]);
    }

    // ---- String bytes ----

    /** `hd_inflate_read_huff` on `namebuf` */
    method ReadHuffName(src: Bytes, i: nat) returns (ok: bool, n: nat)
      requires Sane() && phase == ReadHuff(Name) && i <= |src| && hstate < |c.huff.decode|
      modifies this`left, this`hstate, this`haccept, this`nameLast, nameBuf
      ensures Sane() && n == (if |src| - i < old(left) then |src| - i else old(left))
      ensures var r := ReadBytes(c, old(State()), src[i..i + n]); (ok <==> r.Next?) && (ok ==> State() == r.d)
    {
      hide HdContext.Valid, HdContext.Table, H.Shaped, H.CellShaped, H.Decode, Settled, Defined, Decoding.Valid;
      n := if |src| - i >= left then left else |src| - i;
      var st, acc, last;
      ok, st, acc, last := H.HuffDecode(c.huff, hstate, haccept, nameBuf, nameLast, src, i, i + n, |src| - i >= left);
      if ok {
        hstate, haccept, nameLast, left := st, acc, last, left - n;
      }
    }

    /** `hd_inflate_read_huff` on `valuebuf` */
    method ReadHuffValue(src: Bytes, i: nat) returns (ok: bool, n: nat)
      requires Sane() && phase == ReadHuff(Value) && i <= |src| && hstate < |c.huff.decode|
      modifies this`left, this`hstate, this`haccept, this`valueLast, valueBuf
      ensures Sane() && n == (if |src| - i < old(left) then |src| - i else old(left))
      ensures var r := ReadBytes(c, old(State()), src[i..i + n]); (ok <==> r.Next?) && (ok ==> State() == r.d)
    {
      hide HdContext.Valid, HdContext.Table, H.Shaped, H.CellShaped, H.Decode, Settled, Defined, Decoding.Valid;
      n := if |src| - i >= left then left else |src| - i;
      var st, acc, last;
      ok, st, acc, last := H.HuffDecode(c.huff, hstate, haccept, valueBuf, valueLast, src, i, i + n, |src| - i >= left);
      if ok {
        hstate, haccept, valueLast, left := st, acc, last, left - n;
      }
    }

    /** `hd_inflate_read` into `namebuf` */
    method ReadRawName(src: Bytes, i: nat) returns (n: nat)
      requires Sane() && phase == ReadRaw(Name) && i <= |src| && hstate < |c.huff.decode|
      modifies this`left, this`nameLast, nameBuf
      ensures Sane() && n == (if |src| - i < old(left) then |src| - i else old(left))
      ensures Next(State(), []) == ReadBytes(c, old(State()), src[i..i + n])
    {
      hide HdContext.Valid, HdContext.Table, H.Shaped;
      n := if |src| - i < left then |src| - i else left;
      ghost var was := nameBuf[..nameLast];
      forall k | 0 <= k < n {
        nameBuf[nameLast + k] := src[i + k];
      }
      nameLast, left := nameLast + n, left - n;
      assert nameBuf[..nameLast] == was + src[i..i + n];
    }

    /** `hd_inflate_read` into `valuebuf` */
    method ReadRawValue(src: Bytes, i: nat) returns (n: nat)
      requires Sane() && phase == ReadRaw(Value) && i <= |src| && hstate < |c.huff.decode|
      modifies this`left, this`valueLast, valueBuf
      ensures Sane() && n == (if |src| - i < old(left) then |src| - i else old(left))
      ensures Next(State(), []) == ReadBytes(c, old(State()), src[i..i + n])
    {
      hide HdContext.Valid, HdContext.Table, H.Shaped;
      n := if |src| - i < left then |src| - i else left;
      ghost var was := valueBuf[..valueLast];
      forall k | 0 <= k < n {
        valueBuf[valueLast + k] := src[i + k];
      }
      valueLast, left := valueLast + n, left - n;
      assert valueBuf[..valueLast] == was + src[i..i + n];
    }

    /** As many string bytes as there are. */
    method ReadString(src: Bytes, i: nat) returns (ok: bool, n: nat)
      requires Sane() && (phase.ReadHuff? || phase.ReadRaw?) && i <= |src| && hstate < |c.huff.decode|
      modifies this`left, this`hstate, this`haccept, this`nameLast, this`valueLast, nameBuf, valueBuf
      ensures Sane() && n == (if |src| - i < old(left) then |src| - i else old(left))
      ensures var r := ReadBytes(c, old(State()), src[i..i + n]); r == if ok then Next(State(), []) else Fail([])
    {
      hide Sane, Roomy, ReadBytes, State;
      ghost var d := State();
      ok := true;
      match phase {
        case ReadHuff(Name) => ok, n := ReadHuffName(src, i);
        case ReadHuff(Value) => ok, n := ReadHuffValue(src, i);
        case ReadRaw(Name) => n := ReadRawName(src, i);
        case ReadRaw(Value) => n := ReadRawValue(src, i);
      }
    }

    /** The terminating zero, for which there is always room. */
    method Terminate()
      requires Sane() && (phase.ReadHuff? || phase.ReadRaw?)
      modifies nameBuf, valueBuf
      ensures Sane() && State() == old(State())
    {
      hide HdContext.Valid, HdContext.Table, Usable;
      if phase.part == Name {
        nameBuf[nameLast] := 0;
      } else {
        valueBuf[valueLast] := 0;
      }
    }

    /** `hd_inflate_commit_newname` and `hd_inflate_commit_indname` */
    method CommitHeader() returns (e: Emitted)
      requires Sane() && HasName(State().ctx, State().lit)
      modifies ctx, ctx.ring, ctx.ring.buffer, ctx.ring.contents
      ensures Sane()
      ensures var d := old(State()); var f := FieldOf(c, d.ctx, d.lit, d.text);
              State() == d.(ctx := Indexing(d.ctx, d.lit, f)) && e == Emitted(f, d.lit.noIndex)
      ensures ctx.bad == old(ctx.bad) && (ctx.ring.buffer == old(ctx.ring.buffer) || fresh(ctx.ring.buffer))
      ensures forall k :: 0 <= k < |ctx.ring.contents| ==> ctx.ring.contents[k] in old(ctx.ring.contents) || fresh(ctx.ring.contents[k])
    {
      hide Add, Size, Evict, H.Shaped;
      var name;
      if op == OpNewName {
        name := nameBuf[..nameLast];
      } else {
        var f := TableGet(index);
        name := f.name;
      }
      var field := Field(name, valueBuf[..valueLast]);
      if indexRequired {
        ctx.AddIncremental(field, c.dict.lookupToken(name), 0);
      }
      e := Emitted(field, noIndex);
    }

    method SetPhase(p: Phase)
      requires Sane() && (p == Opcode || p == CheckLen(Value))
      modifies this`phase
      ensures Sane() && State() == old(State()).(phase := p)
    {
      hide HdContext.Valid, HdContext.Table, Usable;
      phase := p;
    }

    /** All bytes of a string are there. */
    method FinishBody() returns (w: Switch)
      requires Sane() && (phase.ReadHuff? || phase.ReadRaw?) && left == 0
      requires phase.part == Value ==> HasName(State().ctx, State().lit)
      modifies this`phase, nameBuf, valueBuf, ctx, ctx.ring, ctx.ring.buffer, ctx.ring.contents
      ensures Sane() && BodyDone(c, old(State()), w, State())
      ensures w == Continued ==> old(phase).part == Name && phase == CheckLen(Value)
      ensures ctx.bad == old(ctx.bad) && (ctx.ring.buffer == old(ctx.ring.buffer) || fresh(ctx.ring.buffer))
      ensures forall k :: 0 <= k < |ctx.ring.contents| ==> ctx.ring.contents[k] in old(ctx.ring.contents) || fresh(ctx.ring.contents[k])
    {
      Shows();
      hide Sane, State, Indexing, FieldOf, HasName, Decoding.Valid;
      Terminate();
      if phase.part == Name {
        SetPhase(CheckLen(Value));
        Shows();
        return Continued;
      }
      var e := CommitHeader();
      SetPhase(Opcode);
      return Emitting(e);
    }

    /** The part all strings share: `Continued` says that the string is complete. */
    method ReadBody(src: Bytes, i: nat) returns (w: Switch, i': nat)
      requires Valid() && (phase.ReadHuff? || phase.ReadRaw?) && i <= |src| && (phase.part == Name ==> i < |src|)
      requires DefinedGo(c, State(), src[i..])
      modifies this`left, this`hstate, this`haccept, this`nameLast, this`valueLast, nameBuf, valueBuf
      ensures Sane() && i <= i' <= |src| && (w.Continued? || w.Starved? || w.Rejected?)
      ensures w != Continued ==> Does(c, old(State()), src[i..], w, State(), src[i'..])
      ensures w == Continued ==>
                left == 0 && phase == old(phase) && (phase.part == Value ==> HasName(State().ctx, State().lit))
                && BodyEnds(c, old(State()), src[i..], Next(State(), []), src[i'..])
    {
      hide *;
      Knows();
      ghost var d, s := State(), src[i..];
      var ok, n := ReadString(src, i);
      assert s[..n] == src[i..i + n] && s[n..] == src[i + n..];
      ghost var r := ReadBytes(c, d, s[..n]);
      BodyCase(c, d, s, n);
      BodyCaseSays(c, d, s, r, s[n..]);
      Shows();
      if !ok {
        RejectedAnyhow(c, d, s, d, State(), s);
        return Rejected, i;
      }
      return if left > 0 then Starved else Continued, i + n;
    }

    method OnBody(src: Bytes, i: nat) returns (w: Switch, i': nat)
      requires Valid() && (phase.ReadHuff? || phase.ReadRaw?) && i <= |src| && (phase.part == Name ==> i < |src|)
      requires DefinedGo(c, State(), src[i..])
      modifies this, ctx, ctx.ring, ctx.ring.buffer, ctx.ring.contents, nameBuf, valueBuf
      ensures Sane() && i <= i' <= |src| && Does(c, old(State()), src[i..], w, State(), src[i'..])
      ensures w == Continued ==> old(phase).part == Name && phase == CheckLen(Value)
      ensures nameBuf == old(nameBuf) && valueBuf == old(valueBuf)
      ensures ctx.bad == old(ctx.bad) && (ctx.ring.buffer == old(ctx.ring.buffer) || fresh(ctx.ring.buffer))
      ensures forall k :: 0 <= k < |ctx.ring.contents| ==> ctx.ring.contents[k] in old(ctx.ring.contents) || fresh(ctx.ring.contents[k])
    {
      hide *;
      Knows();
      ghost var d := State();
      w, i' := ReadBody(src, i);
      if w == Continued {
        Shows();
        ghost var d1 := State();
        w := FinishBody();
        BodyDoneDoes(c, d, src[i..], Next(d1, []), src[i'..], w, State());
      }
    }

    // ---- The public functions ----

    /** One turn of the loop. */
    method SwitchCase(src: Bytes, i: nat) returns (w: Switch, i': nat, busy: bool)
      requires Valid() && i <= |src| && DefinedGo(c, State(), src[i..])
      requires i < |src| || phase == ReadHuff(Value) || phase == ReadRaw(Value)
      requires !Drained(State()) ==> Decoding.Valid(c, State()) && Defined(c, State(), src[i..])
      modifies this, ctx, ctx.ring, ctx.ring.buffer, ctx.ring.contents, nameBuf, valueBuf
      ensures Sane() && i <= i' <= |src| && Does(c, old(State()), src[i..], w, State(), src[i'..])
      ensures w == Continued ==> (i' > i || Rank(phase) < old(Rank(phase)))
      ensures w == Continued ==> (busy <==> phase == ReadHuff(Value) || phase == ReadRaw(Value))
      ensures nameBuf == old(nameBuf) || fresh(nameBuf)
      ensures valueBuf == old(valueBuf) || fresh(valueBuf)
      ensures ctx.bad == old(ctx.bad) && (ctx.ring.buffer == old(ctx.ring.buffer) || fresh(ctx.ring.buffer))
      ensures forall k :: 0 <= k < |ctx.ring.contents| ==> ctx.ring.contents[k] in old(ctx.ring.contents) || fresh(ctx.ring.contents[k])
    {
      hide Sane, State, Valid, Does, Defined, DefinedGo, Settled, Decoding.Valid;
      Knows();
      busy := false;
      match phase {
        case ExpectTableSize => w, i' := OnOpcode(src, i);
        case Start => w, i' := OnOpcode(src, i);
        case Opcode => w, i' := OnOpcode(src, i);
        case ReadTableSize => w, i' := OnTableSize(src, i);
        case ReadIndex => w, i' := OnIndex(src, i);
        case CheckLen(part) =>
          w, i' := OnCheckLen(part, src, i);
          busy := part == Value;
        case ReadLen(part) =>
          w, i' := OnLength(part, src, i);
          busy := part == Value;
        case ReadHuff(part) => w, i' := OnBody(src, i);
        case ReadRaw(part) => w, i' := OnBody(src, i);
      }
    }

    /** Between two calls. */
    ghost predicate Resumable()
      reads this, ctx, ctx.ring, ctx.ring.buffer, ctx.ring.contents, nameBuf, valueBuf
    {
      Sane() && Decoding.Valid(c, State())
    }

    lemma StartsOut(src: Bytes)
      requires Resumable() && Defined(c, State(), src)
      ensures Valid() && Usable(c) && Settled(c, State()) && Decoding.Valid(c, State()) && !Drained(State())
      ensures DefinedGo(c, State(), src) && Does(c, State(), src, Continued, State(), src)
    {
      hide Run, Defined;
      assert src[0..] == src;
      forall n | 0 <= n <= |src|
        ensures Go(c, State(), src[..n]) == Go(c, State(), src[0..n])
      {
        assert src[..n] == src[0..n];
      }
    }

    lemma GoesOn(d: Decoder, s: Bytes, s': Bytes)
      requires Sane() && Usable(c) && Settled(c, d) && Does(c, d, s, Continued, State(), s')
      ensures Valid() && Settled(c, State()) && DefinedGo(c, State(), s')
      ensures !Drained(State()) ==> Decoding.Valid(c, State()) && Defined(c, State(), s')
      ensures Drained(State()) ==> phase == ReadHuff(Value) || phase == ReadRaw(Value)
    {
      hide Run, Defined, HdContext.Valid, Commit, Go;
    }

    lemma ResumesIf(ok: bool)
      requires ok ==> Sane() && Decoding.Valid(c, State())
      ensures ok ==> Resumable()
    {
    }

    method GiveUp()
      requires Sane()
      modifies ctx`bad
      ensures Sane() && State() == old(State()) && ctx.bad
    {
      ctx.bad := true;
    }

    /** How a call ends when a case ends it. */
    method Finish(src: Bytes, final: bool, w: Switch, i: nat, ghost d0: Decoder) returns (r: Inflated)
      requires Sane() && Usable(c) && i <= |src| && w != Continued && !ctx.bad && Decoding.Valid(c, d0) && !Drained(d0)
      requires Settled(c, d0) && Does(c, d0, src, w, State(), src[i..])
      modifies ctx`bad
      ensures Sane() && State() == old(State()) && (ctx.bad <==> r == Error)
      ensures Answers(c, d0, src, final, r, State())
      ensures r != Error ==> Decoding.Valid(c, State())
    {
      hide Run, Defined, HdContext.Counted, Decoding.Valid, Settled;
      match w {
        case Emitting(e) => r := Header(e, i);
        case Starved =>
          if final {
            GiveUp();
            r := Error;
          } else {
            r := Consumed;
          }
        case Rejected =>
          GiveUp();
          r := Error;
      }
    }

    /** How a call ends when all input was read. */
    method Exhausted(src: Bytes, final: bool, ghost d0: Decoder) returns (r: Inflated)
      requires Resumable() && !ctx.bad && Decoding.Valid(c, d0) && Run(c, d0, src) == Next(State(), [])
      modifies ctx`bad
      ensures Resumable() && State() == old(State()) && (ctx.bad <==> r == Error)
      ensures Answers(c, d0, src, final, r, State())
    {
      hide Run, Defined, HdContext.Counted, Decoding.Valid;
      if final && phase != Opcode && phase != Start {
        GiveUp();
        return Error;
      }
      return Consumed;
    }

    lemma RunsDry(d0: Decoder, src: Bytes)
      requires Valid() && !Drained(State()) && Decoding.Valid(c, d0) && !Drained(d0)
      requires Settled(c, d0) && Does(c, d0, src, Continued, State(), [])
      ensures Resumable() && Run(c, d0, src) == Next(State(), [])
    {
      LeadsTo(c, d0, src, State(), |src|);
    }

    /**
     * `nghttp2_hd_inflate_hd_nv`: reads until a header is complete or the input is used up. Calling
     * it again with the rest goes on as the byte-wise machine would on the whole input.
     */
    method InflateHdNv(src: Bytes, final: bool) returns (r: Inflated)
      requires ctx.bad || (Resumable() && Defined(c, State(), src))
      modifies this, ctx, ctx.ring, ctx.ring.buffer, ctx.ring.contents, nameBuf, valueBuf
      ensures ctx.bad <==> r == Error
      ensures old(ctx.bad) ==> r == Error
      ensures !old(ctx.bad) ==> Answers(c, old(State()), src, final, r, State())
      ensures r != Error ==> Resumable()
      ensures forall o <- Objects() :: o in old(Objects()) || fresh(o)
    {
      hide Sane, State, Valid, Does, Defined, DefinedGo, Settled, Decoding.Valid, Rank, Go, Run, Answers, Resumable, Drained;
      if ctx.bad {
        return Error;
      }
      StartsOut(src);
      ghost var d0 := State();
      var i, busy := 0, false;
      assert src[0..] == src;
      while i != |src| || busy
        invariant 0 <= i <= |src| && Valid() && !ctx.bad && Usable(c) && Settled(c, State())
        invariant !Drained(State()) ==> Decoding.Valid(c, State()) && Defined(c, State(), src[i..])
        invariant (Drained(State()) ==> busy) && (busy ==> phase == ReadHuff(Value) || phase == ReadRaw(Value))
        invariant DefinedGo(c, State(), src[i..]) && Does(c, d0, src, Continued, State(), src[i..])
        invariant nameBuf == old(nameBuf) || fresh(nameBuf)
        invariant valueBuf == old(valueBuf) || fresh(valueBuf)
        invariant ctx.ring.buffer == old(ctx.ring.buffer) || fresh(ctx.ring.buffer)
        invariant forall k :: 0 <= k < |ctx.ring.contents| ==> ctx.ring.contents[k] in old(ctx.ring.contents) || fresh(ctx.ring.contents[k])
        decreases |src| - i, Rank(phase)
      {
        Knows();
        ghost var d, s := State(), src[i..];
        var w;
        w, i, busy := SwitchCase(src, i);
        DoesTwice(c, d0, src, d, s, w, State(), src[i..]);
        if w != Continued {
          r := Finish(src, final, w, i, d0);
          ResumesIf(r != Error);
          return;
        }
        GoesOn(d0, src, src[i..]);
      }
      assert src[i..] == [];
      RunsDry(d0, src);
      r := Exhausted(src, final, d0);
    }

    /** `nghttp2_hd_inflate_change_table_size`: refused in the middle of a block. */
    method ChangeTableSize(size: nat) returns (ok: bool)
      requires Resumable() && size <= UINT32_MAX
      modifies this`phase, this`minMax, this`settings, ctx, ctx.ring, ctx.ring.contents
      ensures Resumable() && (ok <==> old(phase) == ExpectTableSize || old(phase) == Start)
      ensures State() == if ok then DecoderResize(old(State()), size) else old(State())
      ensures ctx.bad == old(ctx.bad) && Objects() <= old(Objects())
    {
      hide HdContext.Valid, Evict, Usable, Fields;
      if phase != ExpectTableSize && phase != Start {
        return false;
      }
      if ctx.bufsizeMax > size {
        phase := ExpectTableSize;
        minMax := size;
      }
      settings := size;
      ShrinkTo(size);
      return true;
    }

    method ShrinkTo(size: nat)
      requires Sane() && size <= UINT32_MAX
      modifies ctx, ctx.ring, ctx.ring.contents
      ensures Sane() && State() == old(State()).(ctx := old(State()).ctx.(max := size, table := Evict(old(State()).ctx.table, size)))
      ensures ctx.bad == old(ctx.bad) && ctx.ring.buffer == old(ctx.ring.buffer) && ctx.ring.contents <= old(ctx.ring.contents)
    {
      hide Size, Evict, Usable, Fields, Numbered;
      ctx.bufsizeMax := size;
      ctx.Shrink();
    }

    /** `nghttp2_hd_inflate_end_headers` */
    method EndHeaders()
      requires Resumable()
      modifies this`phase
      ensures Resumable() && State() == old(State()).(phase := Start)
    {
      phase := Start;
    }
  }

  /** What a call returns: an error, a header and how much was read, or that all input was read. */
  datatype Inflated = Error | Header(e: Emitted, read: nat) | Consumed

  /** The answer of a call on input `src` in state `d`, which it leaves in state `d'`. */
  ghost predicate Answers(c: Codec, d: Decoder, src: Bytes, final: bool, r: Inflated, d': Decoder)
    requires Usable(c) && Decoding.Valid(c, d)
  {
    match r
    case Error => (if final then EndBlock(Run(c, d, src)) else Run(c, d, src)) == Fail([])
    case Header(e, read) =>
      read <= |src| && Decoding.Valid(c, d') && d'.phase == Opcode && Defined(c, d', src[read..])
      && Run(c, d, src[..read]) == Next(d', [e])
    case Consumed => Run(c, d, src) == Next(d', []) && (final ==> d'.phase == Start || d'.phase == Opcode)
  }

  /** What follows from a complete string. */
  ghost predicate BodyDone(c: Codec, d: Decoder, w: Switch, d': Decoder)
    requires Usable(c) && (d.phase.ReadHuff? || d.phase.ReadRaw?)
  {
    if d.phase.part == Name then w == Continued && d' == d.(phase := CheckLen(Value))
    else HasName(d.ctx, d.lit) &&
         var f := FieldOf(c, d.ctx, d.lit, d.text);
         w == Emitting(Emitted(f, d.lit.noIndex)) && d' == d.(phase := Opcode, ctx := Indexing(d.ctx, d.lit, f))
  }

  lemma BodyCaseSays(c: Codec, d: Decoder, s: Bytes, r: Step, rest: Bytes)
    requires Usable(c) && Settled(c, d) && (d.phase.ReadHuff? || d.phase.ReadRaw?) && BodyEnds(c, d, s, r, rest)
    requires r.Next? ==> r.d.phase == d.phase
    ensures r == Fail([]) ==> Does(c, d, s, Rejected, d, s)
    ensures r.Next? && r.d.num.left > 0 ==> Does(c, d, s, Starved, r.d, rest)
    ensures r.Next? && r.d.num.left == 0 && d.phase.part == Value ==> HasName(r.d.ctx, r.d.lit) && r.d.text.hstate < |c.huff.decode|
  {
  }

  lemma BodyDoneDoes(c: Codec, d: Decoder, s: Bytes, r: Step, rest: Bytes, w: Switch, d': Decoder)
    requires Usable(c) && Settled(c, d) && (d.phase.ReadHuff? || d.phase.ReadRaw?) && BodyEnds(c, d, s, r, rest)
    requires r.Next? && r.d.phase == d.phase && r.d.num.left == 0 && BodyDone(c, r.d, w, d')
    ensures Does(c, d, s, w, d', rest)
  {
    hide Does, Settled, Indexing, FieldOf, HasName;
  }

  lemma BodyPhases(d: Decoder)
    requires d.phase.ReadLen?
    ensures AtBody(d).phase == ReadHuff(d.phase.part) || AtBody(d).phase == ReadRaw(d.phase.part)
  {
  }

  lemma StartedLen(c: Codec, d: Decoder, s: Bytes, d1: Decoder)
    requires Usable(c) && Decoding.Valid(c, d) && d.phase.CheckLen? && s != [] && d1 == ToLen(d, d.phase.part, s[0])
    requires Does(c, d, s, Continued, d1, s)
    ensures Settled(c, d1) && Decoding.Valid(c, d1) && Defined(c, d1, s)
  {
  }

  /** What follows from a complete index in `d.num.left`. */
  ghost predicate IndexTaken(c: Codec, d: Decoder, w: Switch, d': Decoder)
    requires Usable(c) && d.num.left <= STATIC_LENGTH + |d.ctx.table|
  {
    if d.num.left == 0 then w == Rejected
    else if d.lit.op == OpIndexed then
      && w == Emitting(Emitted(At(c.dict, d.ctx.table, d.num.left - 1), false))
      && d' == d.(lit := d.lit.(index := d.num.left - 1), phase := Opcode)
    else w == Continued && d' == d.(lit := d.lit.(index := d.num.left - 1), phase := CheckLen(Value))
  }

  lemma IndexTakenPhase(c: Codec, d: Decoder, w: Switch, d': Decoder)
    requires Usable(c) && d.num.left <= STATIC_LENGTH + |d.ctx.table| && IndexTaken(c, d, w, d')
    ensures w == Continued ==> d'.phase == CheckLen(Value)
  {
  }

  lemma IndexDoes(c: Codec, d: Decoder, s: Bytes, o: P.Outcome, d1: Decoder, w: Switch, d': Decoder)
    requires Usable(c) && Decoding.Valid(c, d) && d.phase == ReadIndex && s != [] && Defined(c, d, s)
    requires o == P.Resume(d.num.left, d.num.shift, s, IntBits(d)) && o.Complete? && o.value <= IntMax(d)
    requires d1 == d.(num := Number(o.value, o.shift)) && IndexTaken(c, d1, w, d')
    ensures Does(c, d, s, w, d', s[o.used..])
  {
    assert Settled(c, d);
    hide P.Resume, Does, Defined, Decoding.Valid, Settled, At, Resized, AtBody, IntBits, Leads, Go, Evict, Size;
    NumberDoes(c, d, s, o);
    if o.value == 0 {
      RejectedAnyhow(c, d, s, d, d', s[o.used..]);
    }
  }

  /** Where a refused input leaves the decoder does not matter. */
  lemma RejectedAnyhow(c: Codec, d: Decoder, s: Bytes, d1: Decoder, d2: Decoder, s': Bytes)
    requires Usable(c) && Settled(c, d) && Does(c, d, s, Rejected, d1, s)
    ensures Does(c, d, s, Rejected, d2, s')
  {
  }

  lemma OpenedPhase(d: Decoder, b: Byte)
    requires Between(d.phase)
    ensures var o := OpcodeByte(d, b);
            && (o.Again? ==> Rank(o.d.phase) == 0 && !o.d.phase.ReadHuff? && !o.d.phase.ReadRaw?)
            && (o.Taken? ==> o.d.phase.CheckLen?)
  {
  }
}
