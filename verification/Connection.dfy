/** Both ends of an HPACK connection: header lists survive, and the tables stay equal. */
module Connection {
  import opened Bits
  import opened HeaderTable
  import opened Encoding
  import opened Decoding
  import opened Reading
  import H = Huffman
  import P = PrefixInt

  // ---- One header ----

  /** What the application at the other end should see of a header. */
  function Delivered(nv: Nv): Emitted
  {
    Emitted(nv.field, Secret(nv))
  }

  predicate SmallNv(nv: Nv)
  {
    |nv.field.name| <= UINT32_MAX && |nv.field.value| <= UINT32_MAX
  }

  /** The representation the encoder chooses stands for the header, and asks for the table change the encoder makes. */
  lemma RepStands(c: Codec, t: Table, max: nat, nv: Nv)
    requires Sound(c) && SmallNv(nv)
    ensures var rep := RepOf(c, t, max, nv);
            && !rep.SizeUpdate? && Small(rep)
            && (rep.Indexed? || rep.IndexedName? ==> rep.idx < STATIC_LENGTH + |t|)
            && FieldFor(c, t, rep) == nv.field
            && (ModeIn(rep) == NeverIndexing <==> Delivered(nv).noIndex)
            && TableAfter(c, t, max, nv) == if ModeIn(rep) == WithIndexing then Add(t, nv.field, max) else t
  {
  }

  lemma IndexesSmall(t: Table, max: nat)
    requires Size(t) <= max <= UINT32_MAX
    ensures STATIC_LENGTH + |t| <= UINT32_MAX
  {
    SizeCount(t);
  }

  predicate AllFit(h: H.Tables, reps: seq<Rep>)
    requires |h.nbits| == |h.code| == 257
  {
    forall rep <- reps :: Fits(h, rep)
  }

  /** How many representations come before the first that does not fit. */
  function FitCount(h: H.Tables, reps: seq<Rep>): (k: nat)
    requires |h.nbits| == |h.code| == 257
    ensures k <= |reps| && (k == |reps| <==> AllFit(h, reps))
  {
    if reps == [] || !Fits(h, reps[0]) then 0 else 1 + FitCount(h, reps[1..])
  }

  function DeliveredAll(nvs: seq<Nv>): seq<Emitted>
  {
    seq(|nvs|, i requires 0 <= i < |nvs| => Delivered(nvs[i]))
  }

  /** One header, with whatever follows it. */
  lemma RunNv(c: Codec, d: Decoder, nv: Nv, rest: Bytes, w: Bytes) returns (d': Decoder)
    requires Sound(c) && Decoding.Valid(c, d) && (d.phase == Start || d.phase == Opcode) && d.ctx.max <= UINT32_MAX
    requires SmallNv(nv) && w == Wire(c.huff, RepOf(c, d.ctx.table, d.ctx.max, nv)) + rest
    ensures !Fits(c.huff, RepOf(c, d.ctx.table, d.ctx.max, nv)) ==> Run(c, d, w) == Fail([])
    ensures Fits(c.huff, RepOf(c, d.ctx.table, d.ctx.max, nv)) ==>
              Decoding.Valid(c, d') && d'.phase == Opcode
              && d'.ctx == d.ctx.(table := TableAfter(c, d.ctx.table, d.ctx.max, nv))
              && Run(c, d, w) == Prepend([Delivered(nv)], Run(c, d', rest))
  {
    RepStands(c, d.ctx.table, d.ctx.max, nv);
    IndexesSmall(d.ctx.table, d.ctx.max);
    d' := RunHeader(c, d, RepOf(c, d.ctx.table, d.ctx.max, nv), rest, w);
  }

  lemma DeliveredCons(c: Codec, nvs: seq<Nv>)
    requires nvs != []
    ensures DeliveredAll(nvs) == [Delivered(nvs[0])] + DeliveredAll(nvs[1..])
  {
  }

  lemma DeliveredPrefix(c: Codec, nvs: seq<Nv>, k: nat)
    requires k < |nvs|
    ensures DeliveredAll(nvs[..k + 1]) == [Delivered(nvs[0])] + DeliveredAll(nvs[1..][..k])
  {
    assert nvs[..k + 1][1..] == nvs[1..][..k];
    DeliveredCons(c, nvs[..k + 1]);
  }

  lemma NothingDelivered(c: Codec, d: Decoder)
    requires Usable(c) && Decoding.Valid(c, d) && |c.huff.nbits| == |c.huff.code| == 257
    ensures DeliveredAll([]) == [] && AllFit(c.huff, []) && Wires(c.huff, []) == [] && Run(c, d, []) == Next(d, [])
  {
  }

  lemma AllFitCons(h: H.Tables, reps: seq<Rep>, r: Rep, more: seq<Rep>)
    requires |h.nbits| == |h.code| == 257 && reps == [r] + more
    ensures AllFit(h, reps) <==> Fits(h, r) && AllFit(h, more)
    ensures Wires(h, reps) == Wire(h, r) + Wires(h, more)
    ensures FitCount(h, reps) == if Fits(h, r) then 1 + FitCount(h, more) else 0
  {
    assert reps[0] == r && reps[1..] == more;
  }

  /** The headers of a block: the list comes out as it went in, and the tables change alike. */
  lemma {:induction false} RunHeaders(c: Codec, d: Decoder, nvs: seq<Nv>) returns (d': Decoder)
    requires Sound(c) && Decoding.Valid(c, d) && (d.phase == Start || d.phase == Opcode) && d.ctx.max <= UINT32_MAX
    requires forall nv <- nvs :: SmallNv(nv)
    ensures var reps := RepsOf(c, d.ctx.table, d.ctx.max, nvs);
            && (!AllFit(c.huff, reps) ==>
                  Run(c, d, Wires(c.huff, reps)) == Fail(DeliveredAll(nvs[..FitCount(c.huff, reps)])))
            && (AllFit(c.huff, reps) ==>
                  Run(c, d, Wires(c.huff, reps)) == Next(d', DeliveredAll(nvs)) && Decoding.Valid(c, d')
                  && (d'.phase == Start || d'.phase == Opcode)
                  && d'.ctx == d.ctx.(table := TableAfterAll(c, d.ctx.table, d.ctx.max, nvs)))
    decreases |nvs|
  {
    hide Delivered, DeliveredAll, RepOf, TableAfter, AllFit, Fits, Wire, Wires, Decoding.Valid, Size, FitCount;
    d' := d;
    NothingDelivered(c, d);
    assert nvs[..0] == [];
    if nvs != [] {
      var t, max, nv := d.ctx.table, d.ctx.max, nvs[0];
      var rep, more := RepOf(c, t, max, nv), RepsOf(c, TableAfter(c, t, max, nv), max, nvs[1..]);
      AllFitCons(c.huff, RepsOf(c, t, max, nvs), rep, more);
      var d1 := RunNv(c, d, nv, Wires(c.huff, more), Wires(c.huff, RepsOf(c, t, max, nvs)));
      if Fits(c.huff, rep) {
        d' := RunHeaders(c, d1, nvs[1..]);
        DeliveredCons(c, nvs);
        DeliveredPrefix(c, nvs, FitCount(c.huff, more));
      }
    }
  }

  // ---- Table sizes ----

  /**
   * What the two ends agree on between blocks. Without a pending change the tables and their limits
   * are equal. With one, the encoder has already evicted down to the smallest size since the last
   * block, and the decoder will accept that size when the next block announces it.
   */
  ghost predicate InSync(c: Codec, e: Encoder, d: Decoder)
  {
    && Usable(c) && Decoding.Valid(c, d) && (d.phase == Start || d.phase == ExpectTableSize)
    && Size(e.table) <= e.max <= d.ctx.settings <= UINT32_MAX
    && d.ctx.max <= UINT32_MAX && e.minMax <= UINT32_MAX && e.max <= e.limit
    && if e.notify then Pending(e, d.ctx)
       else d.phase == Start && e.table == d.ctx.table && e.max == d.ctx.max && e.minMax == d.ctx.minMax == UINT32_MAX
  }

  ghost predicate Pending(e: Encoder, ctx: Context)
  {
    && (e.minMax <= e.max || e.max == e.limit)
    && e.table == Evict(ctx.table, Min(e.minMax, e.max))
    && Min(e.minMax, e.max) <= ctx.minMax
  }

  /** New connections are in step. */
  lemma InitiallyInSync(c: Codec, limit: nat)
    requires Usable(c) && limit <= UINT32_MAX
    ensures InSync(c, NewEncoder(limit), NewDecoder())
  {
  }

  /** Evicting early, at the encoder, and late, at the decoder, comes to the same. */
  lemma ResizePending(e: Encoder, ctx: Context, ctx': Context, size: nat)
    requires if e.notify then Pending(e, ctx) else e.table == ctx.table && e.max == ctx.max && e.minMax == ctx.minMax == UINT32_MAX
    requires e.max <= e.limit && size <= UINT32_MAX
    requires ctx' == Context(Evict(ctx.table, size), size, size, if ctx.max > size then size else ctx.minMax)
    ensures Pending(EncoderResize(e, size), ctx')
  {
    var next := Min(size, e.limit);
    if e.notify {
      var low := Min(e.minMax, e.max);
      EvictTwice(ctx.table, low, next);
      EvictTwice(ctx.table, size, Min(e.minMax, next));
    } else {
      EvictTwice(ctx.table, size, next);
    }
  }

  /** A change applied at both ends keeps them in step, any number of times between two blocks. */
  lemma ResizeInSync(c: Codec, e: Encoder, d: Decoder, size: nat)
    requires InSync(c, e, d) && size <= UINT32_MAX
    ensures InSync(c, EncoderResize(e, size), DecoderResize(d, size))
  {
    ResizePending(e, d.ctx, DecoderResize(d, size).ctx, size);
  }

  lemma AnnouncedWire(h: H.Tables, e: Encoder, rest: Bytes)
    requires |h.nbits| == |h.code| == 257
    ensures Wires(h, Announced(e)) + rest ==
            if !e.notify then rest
            else if e.max > e.minMax then Wire(h, SizeUpdate(e.minMax)) + (Wire(h, SizeUpdate(e.max)) + rest)
            else Wire(h, SizeUpdate(e.max)) + rest
  {
    assert [] + rest == rest;
    var low, last := SizeUpdate(e.minMax), SizeUpdate(e.max);
    assert Wires(h, [last]) == Wire(h, last) by {
      assert [last][1..] == [];
    }
    assert [low, last][1..] == [last];
    Regroup(Wire(h, low), Wire(h, last), [], rest);
  }

  /** The size updates a block starts with bring the decoder's table to the encoder's. */
  lemma RunAnnounced(c: Codec, e: Encoder, d: Decoder, rest: Bytes) returns (d': Decoder)
    requires InSync(c, e, d)
    ensures Decoding.Valid(c, d') && d'.phase == Start
    ensures d'.ctx == Context(e.table, e.max, d.ctx.settings, UINT32_MAX)
    ensures Run(c, d, Wires(c.huff, Announced(e)) + rest) == Run(c, d', rest)
  {
    d' := d;
    AnnouncedWire(c.huff, e, rest);
    if e.notify {
      var last := Wire(c.huff, SizeUpdate(e.max)) + rest;
      EvictFits(e.table, e.max);
      if e.max > e.minMax {
        d' := RunUpdate(c, d, e.minMax, last, Wire(c.huff, SizeUpdate(e.minMax)) + last);
      }
      d' := RunUpdate(c, d', e.max, rest, last);
    }
  }

  // ---- Whole connections ----

  /** What the two applications do: change the table size at both ends, or send a header list. */
  datatype Event = Resize(size: nat) | Block(nvs: seq<Nv>)

  predicate SmallEvent(ev: Event)
  {
    match ev
    case Resize(size) => size <= UINT32_MAX
    case Block(nvs) => forall nv <- nvs :: SmallNv(nv)
  }

  lemma {:induction false} TableFits(c: Codec, t: Table, max: nat, nvs: seq<Nv>)
    requires WellFormed(c.dict) && Size(t) <= max
    ensures Size(TableAfterAll(c, t, max, nvs)) <= max
    decreases |nvs|
  {
    if nvs != [] {
      TableFits(c, TableAfter(c, t, max, nvs[0]), max, nvs[1..]);
    }
  }

  lemma UpdatesFit(h: H.Tables, e: Encoder, reps: seq<Rep>)
    requires |h.nbits| == |h.code| == 257
    ensures AllFit(h, Announced(e) + reps) <==> AllFit(h, reps)
  {
    assert forall rep <- reps :: rep in Announced(e) + reps;
  }

  lemma InSyncAfterBlock(c: Codec, e: Encoder, d: Decoder, nvs: seq<Nv>)
    requires Sound(c) && Decoding.Valid(c, d) && (d.phase == Start || d.phase == Opcode)
    requires e.max <= e.limit && e.max <= d.ctx.settings <= UINT32_MAX && (!e.notify ==> e.minMax == UINT32_MAX)
    requires d.ctx == Context(TableAfterAll(c, e.table, e.max, nvs), e.max, d.ctx.settings, UINT32_MAX)
    requires Size(d.ctx.table) <= e.max
    ensures InSync(c, EncoderAfter(c, e, nvs), d.(phase := Start))
  {
  }

  /**
   * One block: the decoder emits exactly the list that went in and ends in step with the encoder;
   * it refuses the block, after the headers before it, if and only if a string takes more than
   * 65536 bytes on the wire.
   */
  lemma BlockInSync(c: Codec, e: Encoder, d: Decoder, nvs: seq<Nv>)
    requires Sound(c) && InSync(c, e, d) && forall nv <- nvs :: SmallNv(nv)
    ensures var r := Inflate(c, d, BlockWire(c, e, nvs));
            && (AllFit(c.huff, BlockReps(c, e, nvs)) ==>
                  r.Next? && r.out == DeliveredAll(nvs) && InSync(c, EncoderAfter(c, e, nvs), r.d))
            && (!AllFit(c.huff, BlockReps(c, e, nvs)) ==>
                  var k := FitCount(c.huff, RepsOf(c, e.table, e.max, nvs));
                  k < |nvs| && r == Fail(DeliveredAll(nvs[..k])))
  {
    var reps := RepsOf(c, e.table, e.max, nvs);
    WiresConcat(c.huff, Announced(e), reps);
    UpdatesFit(c.huff, e, reps);
    TableFits(c, e.table, e.max, nvs);
    var d1 := RunAnnounced(c, e, d, Wires(c.huff, reps));
    var d2 := RunHeaders(c, d1, nvs);
    if AllFit(c.huff, reps) {
      InSyncAfterBlock(c, e, d2, nvs);
    }
  }

  /** How a conversation went: the state of both ends and the header lists received, or a refused block. */
  datatype Talk = Broken | Talk(enc: Encoder, dec: Decoder, got: seq<seq<Emitted>>)

  function After(got: seq<Emitted>, k: Talk): Talk
  {
    if k.Talk? then k.(got := [got] + k.got) else k
  }

  ghost function Converse(c: Codec, e: Encoder, d: Decoder, events: seq<Event>): Talk
    requires Sound(c) && Usable(c) && Decoding.Valid(c, d) && (d.phase == Start || d.phase == ExpectTableSize)
    decreases |events|
  {
    if events == [] then Talk(e, d, [])
    else
      match events[0]
      case Resize(size) => Converse(c, EncoderResize(e, size), DecoderResize(d, size), events[1..])
      case Block(nvs) =>
        var r := Inflate(c, d, BlockWire(c, e, nvs));
        if r.Next? then After(r.out, Converse(c, EncoderAfter(c, e, nvs), r.d, events[1..])) else Broken
  }

  /** Every string the encoder emits on the way fits the decoder's limit. */
  ghost predicate AllAccepted(c: Codec, e: Encoder, events: seq<Event>)
    requires Sound(c)
    decreases |events|
  {
    events == [] ||
    match events[0]
    case Resize(size) => AllAccepted(c, EncoderResize(e, size), events[1..])
    case Block(nvs) => AllFit(c.huff, BlockReps(c, e, nvs)) && AllAccepted(c, EncoderAfter(c, e, nvs), events[1..])
  }

  /** The header lists sent, as they should arrive. */
  function SentLists(events: seq<Event>): seq<seq<Emitted>>
  {
    if events == [] then []
    else if events[0].Resize? then SentLists(events[1..])
    else [DeliveredAll(events[0].nvs)] + SentLists(events[1..])
  }

  lemma {:induction false} ConverseInSync(c: Codec, e: Encoder, d: Decoder, events: seq<Event>)
    requires Sound(c) && InSync(c, e, d) && forall ev <- events :: SmallEvent(ev)
    ensures var k := Converse(c, e, d, events);
            && (k.Talk? <==> AllAccepted(c, e, events))
            && (k.Talk? ==> k.got == SentLists(events) && InSync(c, k.enc, k.dec))
    decreases |events|
  {
    if events != [] {
      assert SmallEvent(events[0]);
      match events[0] {
        case Resize(size) =>
          ResizeInSync(c, e, d, size);
          ConverseInSync(c, EncoderResize(e, size), DecoderResize(d, size), events[1..]);
        case Block(nvs) =>
          BlockInSync(c, e, d, nvs);
          var r := Inflate(c, d, BlockWire(c, e, nvs));
          if r.Next? {
            ConverseInSync(c, EncoderAfter(c, e, nvs), r.d, events[1..]);
          }
      }
    }
  }

  /** A block settles all pending size changes. */
  lemma {:induction false} SettledAfterBlock(c: Codec, e: Encoder, d: Decoder, events: seq<Event>)
    requires Sound(c) && Usable(c) && Decoding.Valid(c, d) && (d.phase == Start || d.phase == ExpectTableSize)
    requires Converse(c, e, d, events).Talk? && if events == [] then !e.notify else events[|events| - 1].Block?
    ensures !Converse(c, e, d, events).enc.notify
    decreases |events|
  {
    if events != [] {
      match events[0] {
        case Resize(size) => SettledAfterBlock(c, EncoderResize(e, size), DecoderResize(d, size), events[1..]);
        case Block(nvs) =>
          SettledAfterBlock(c, EncoderAfter(c, e, nvs), Inflate(c, d, BlockWire(c, e, nvs)).d, events[1..]);
      }
    }
  }

  /**
   * The whole connection: whatever header lists are sent and whatever table sizes are set in
   * between, every list arrives as it was sent, and after each block the two dynamic tables are
   * equal. The decoder gives up if and only if some string takes more than 65536 bytes on the wire.
   */
  lemma RoundTrip(c: Codec, limit: nat, events: seq<Event>)
    requires Sound(c) && limit <= UINT32_MAX && forall ev <- events :: SmallEvent(ev)
    ensures var k := Converse(c, NewEncoder(limit), NewDecoder(), events);
            && (k.Talk? <==> AllAccepted(c, NewEncoder(limit), events))
            && (k.Talk? ==> k.got == SentLists(events))
            && (k.Talk? && events != [] && events[|events| - 1].Block? ==>
                  k.enc.table == k.dec.ctx.table && k.enc.max == k.dec.ctx.max)
  {
    InitiallyInSync(c, limit);
    ConverseInSync(c, NewEncoder(limit), NewDecoder(), events);
    if Converse(c, NewEncoder(limit), NewDecoder(), events).Talk? && events != [] && events[|events| - 1].Block? {
      SettledAfterBlock(c, NewEncoder(limit), NewDecoder(), events);
    }
  }
}
