/** Two ends of a connection: `Deflater` and `Inflater` used as an application uses them. */
module Session {
  import opened Bits
  import opened HeaderTable
  import opened Encoding
  import opened Decoding
  import opened Feeding
  import opened Connection
  import opened Bound
  import opened Deflaters
  import opened Inflaters

  /** A block that stays within the bound. */
  method Send(enc: Deflater, nvs: seq<Nv>) returns (block: Bytes)
    requires enc.Valid() && !enc.ctx.bad && forall nv <- nvs :: SmallNv(nv)
    requires |BlockWire(enc.c, enc.State(), nvs)| <= BoundOf(nvs)
    modifies enc.Objects()
    ensures enc.Valid() && !enc.ctx.bad && enc.State() == old(EncoderAfter(enc.c, enc.State(), nvs))
    ensures block == old(BlockWire(enc.c, enc.State(), nvs))
    ensures forall o <- enc.Objects() :: o in old(enc.Objects()) || fresh(o)
  {
    hide Deflater.Valid, Deflater.State, BlockWire, EncoderAfter;
    var n := DeflateBound(nvs);
    var buf := new Byte[n];
    var r, len := enc.DeflateHd(buf, nvs);
    block := buf[..len];
  }

  /** With a buffer as long as the bound, the encoder never runs out of room. */
  method DeflateBounded(enc: Deflater, nvs: seq<Nv>) returns (block: Bytes)
    requires enc.Valid() && !enc.ctx.bad
    requires forall nv <- nvs :: SmallNv(nv) && !Oversized(enc.c, nv)
    modifies enc.Objects()
    ensures enc.Valid() && !enc.ctx.bad && enc.State() == old(EncoderAfter(enc.c, enc.State(), nvs))
    ensures block == old(BlockWire(enc.c, enc.State(), nvs))
    ensures forall o <- enc.Objects() :: o in old(enc.Objects()) || fresh(o)
  {
    BlockBound(enc.c, enc.State(), nvs);
    hide *;
    block := Send(enc, nvs);
  }

  /** A piece of input in the middle of a block that is accepted. */
  lemma Piece(c: Codec, d0: Decoder, block: Bytes, at: nat, d: Decoder, got: seq<Emitted>, end: nat)
    requires Usable(c) && Decoding.Valid(c, d0) && Decoding.Valid(c, d) && at <= end <= |block|
    requires Run(c, d0, block).Next? && Run(c, d0, block[..at]) == Next(d, got)
    ensures Run(c, d, block[at..end]).Next? && Defined(c, d, block[at..end])
    ensures Run(c, d0, block[..end]) == Prepend(got, Run(c, d, block[at..end]))
  {
    hide Run, Decoding.Valid, Defined, Usable;
    assert block[..end] == block[..at] + block[at..end] && block == block[..end] + block[end..];
    RunSplit(c, d0, block[..at], block[at..end]);
    RunSplit(c, d0, block[..end], block[end..]);
    AcceptedDefined(c, d, block[at..end]);
  }

  lemma AcceptedRun(c: Codec, d0: Decoder, block: Bytes)
    requires Usable(c) && Decoding.Valid(c, d0) && EndBlock(Run(c, d0, block)).Next?
    ensures Run(c, d0, block).Next?
  {
  }

  /** The end of a block that is accepted. */
  lemma LastPiece(c: Codec, d0: Decoder, block: Bytes, at: nat, d: Decoder, got: seq<Emitted>)
    requires Usable(c) && Decoding.Valid(c, d0) && Decoding.Valid(c, d) && at <= |block|
    requires EndBlock(Run(c, d0, block)).Next? && Run(c, d0, block[..at]) == Next(d, got)
    ensures EndBlock(Run(c, d, block[at..])).Next?
  {
    Piece(c, d0, block, at, d, got, |block|);
    assert block[..|block|] == block && block[at..|block|] == block[at..];
  }

  /** A header that was emitted. */
  lemma OneMore(c: Codec, d0: Decoder, block: Bytes, at: nat, d: Decoder, got: seq<Emitted>, end: nat, read: nat, d': Decoder, e: Emitted)
    requires Usable(c) && Decoding.Valid(c, d0) && Decoding.Valid(c, d) && at <= end <= |block| && read <= end - at
    requires Run(c, d0, block).Next? && Run(c, d0, block[..at]) == Next(d, got)
    requires Run(c, d, block[at..end][..read]) == Next(d', [e])
    ensures read > 0 && Run(c, d0, block[..at + read]) == Next(d', got + [e])
  {
    hide *;
    assert block[at..end][..read] == block[at..at + read] && block[at..at] == [];
    RunEmpty(c, d);
    Piece(c, d0, block, at, d, got, at + read);
    Prepended(got, [e], d');
  }

  lemma RunEmpty(c: Codec, d: Decoder)
    requires Usable(c) && Decoding.Valid(c, d)
    ensures Run(c, d, []) == Next(d, [])
  {
  }

  lemma Prepended(a: seq<Emitted>, b: seq<Emitted>, d: Decoder)
    ensures Prepend(a, Next(d, b)) == Next(d, a + b)
  {
  }

  /** One piece of a block, in as many calls as it has headers. */
  method ReceivePiece(dec: Inflater, ghost d0: Decoder, block: Bytes, from: nat, end: nat, got0: seq<Emitted>) returns (got: seq<Emitted>)
    requires dec.Resumable() && !dec.ctx.bad && from <= end <= |block|
    requires Usable(dec.c) && Decoding.Valid(dec.c, d0) && EndBlock(Run(dec.c, d0, block)).Next?
    requires Decoding.Valid(dec.c, dec.State()) && Run(dec.c, d0, block[..from]) == Next(dec.State(), got0)
    modifies dec.Objects()
    ensures dec.Resumable() && !dec.ctx.bad && Decoding.Valid(dec.c, dec.State())
    ensures Run(dec.c, d0, block[..end]) == Next(dec.State(), got)
    ensures forall o <- dec.Objects() :: o in old(dec.Objects()) || fresh(o)
  {
    hide Run, EndBlock, Answers, Decoding.Valid, Defined, Usable, Prepend, Inflater.Resumable, Inflater.State;
    AcceptedRun(dec.c, d0, block);
    got := got0;
    var at := from;
    while true
      invariant from <= at <= end && dec.Resumable() && !dec.ctx.bad && Decoding.Valid(dec.c, dec.State())
      invariant Run(dec.c, d0, block[..at]) == Next(dec.State(), got)
      invariant forall o <- dec.Objects() :: o in old(dec.Objects()) || fresh(o)
      decreases end - at
    {
      ghost var d := dec.State();
      Piece(dec.c, d0, block, at, d, got, end);
      LastPiece(dec.c, d0, block, at, d, got);
      assert end == |block| ==> block[at..end] == block[at..];
      var r := dec.InflateHdNv(block[at..end], end == |block|);
      Answered(dec.c, d, block[at..end], end == |block|, r, dec.State());
      match r {
        case Header(e, read) =>
          OneMore(dec.c, d0, block, at, d, got, end, read, dec.State(), e);
          got := got + [e];
          at := at + read;
        case Consumed =>
          Prepended(got, [], dec.State());
          return;
        case Error =>
          assert false;
      }
    }
  }

  /** What an answer says of input that is accepted. */
  lemma Answered(c: Codec, d: Decoder, src: Bytes, final: bool, r: Inflated, d': Decoder)
    requires Usable(c) && Decoding.Valid(c, d) && Answers(c, d, src, final, r, d')
    requires if final then EndBlock(Run(c, d, src)).Next? else Run(c, d, src).Next?
    ensures r != Error && (r.Header? ==> r.read <= |src|)
    ensures r.Header? ==> Decoding.Valid(c, d') && Run(c, d, src[..r.read]) == Next(d', [r.e])
    ensures r.Consumed? ==> Run(c, d, src) == Next(d', [])
  {
  }

  /** A whole block in pieces of the given lengths, the rest of it in one more. */
  method Receive(dec: Inflater, block: Bytes, lengths: seq<nat>) returns (got: seq<Emitted>)
    requires dec.Resumable() && !dec.ctx.bad && Usable(dec.c) && Decoding.Valid(dec.c, dec.State())
    requires Inflate(dec.c, dec.State(), block).Next?
    modifies dec.Objects()
    ensures dec.Resumable() && !dec.ctx.bad && Decoding.Valid(dec.c, dec.State())
    ensures old(Inflate(dec.c, dec.State(), block)) == Next(dec.State(), got)
    ensures forall o <- dec.Objects() :: o in old(dec.Objects()) || fresh(o)
  {
    hide Run, EndBlock, Decoding.Valid, Usable, Inflater.Resumable, Inflater.State;
    ghost var d0 := dec.State();
    RunEmpty(dec.c, d0);
    assert block[..0] == [];
    got := [];
    var at: nat := 0;
    for i := 0 to |lengths|
      invariant at <= |block| && dec.Resumable() && !dec.ctx.bad && Decoding.Valid(dec.c, dec.State())
      invariant Run(dec.c, d0, block[..at]) == Next(dec.State(), got)
      invariant forall o <- dec.Objects() :: o in old(dec.Objects()) || fresh(o)
    {
      if at + lengths[i] < |block| {
        got := ReceivePiece(dec, d0, block, at, at + lengths[i], got);
        at := at + lengths[i];
      }
    }
    got := ReceivePiece(dec, d0, block, at, |block|, got);
    assert block[..|block|] == block;
    ghost var d := dec.State();
    dec.EndHeaders();
    Ended(dec.c, d0, block, d, got);
  }

  lemma Ended(c: Codec, d0: Decoder, block: Bytes, d: Decoder, got: seq<Emitted>)
    requires Usable(c) && Decoding.Valid(c, d0) && Inflate(c, d0, block).Next? && Run(c, d0, block) == Next(d, got)
    ensures Inflate(c, d0, block) == Next(d.(phase := Start), got)
  {
  }

  /** Both ends are in step and share nothing. */
  ghost predicate Connected(enc: Deflater, dec: Inflater)
    reads enc, enc.ctx, enc.ctx.ring, enc.ctx.ring.buffer, enc.ctx.ring.contents, enc.hdMap.table
    reads dec, dec.ctx, dec.ctx.ring, dec.ctx.ring.buffer, dec.ctx.ring.contents, dec.nameBuf, dec.valueBuf
  {
    && enc.Valid() && !enc.ctx.bad && dec.Resumable() && !dec.ctx.bad
    && enc.c == dec.c && InSync(enc.c, enc.State(), dec.State())
    && enc.Objects() !! dec.Objects()
  }

  /** Sending leaves the other end alone. */
  method SendBeside(enc: Deflater, dec: Inflater, nvs: seq<Nv>) returns (block: Bytes)
    requires enc.Valid() && !enc.ctx.bad && (forall nv <- nvs :: SmallNv(nv)) && |BlockWire(enc.c, enc.State(), nvs)| <= BoundOf(nvs)
    requires dec.Resumable() && !dec.ctx.bad && enc.Objects() !! dec.Objects()
    modifies enc.Objects()
    ensures enc.Valid() && !enc.ctx.bad && enc.State() == old(EncoderAfter(enc.c, enc.State(), nvs))
    ensures block == old(BlockWire(enc.c, enc.State(), nvs))
    ensures forall o <- enc.Objects() :: o in old(enc.Objects()) || fresh(o)
    ensures dec.Resumable() && !dec.ctx.bad && dec.State() == old(dec.State()) && dec.Objects() == old(dec.Objects())
    ensures enc.Objects() !! dec.Objects()
  {
    hide Deflater.Valid, Deflater.State, Inflater.Resumable, Inflater.State, EncoderAfter, BlockWire;
    block := Send(enc, nvs);
  }

  /** Receiving leaves the other end alone. */
  method ReceiveBeside(enc: Deflater, dec: Inflater, block: Bytes, lengths: seq<nat>) returns (got: seq<Emitted>)
    requires enc.Valid() && !enc.ctx.bad && enc.Objects() !! dec.Objects()
    requires dec.Resumable() && !dec.ctx.bad && Usable(dec.c) && Decoding.Valid(dec.c, dec.State())
    requires Inflate(dec.c, dec.State(), block).Next?
    modifies dec.Objects()
    ensures dec.Resumable() && !dec.ctx.bad
    ensures old(Inflate(dec.c, dec.State(), block)) == Next(dec.State(), got)
    ensures forall o <- dec.Objects() :: o in old(dec.Objects()) || fresh(o)
    ensures enc.Valid() && !enc.ctx.bad && enc.State() == old(enc.State()) && enc.Objects() == old(enc.Objects())
    ensures enc.Objects() !! dec.Objects()
  {
    hide Deflater.Valid, Deflater.State, Inflater.Resumable, Inflater.State, Inflate, Decoding.Valid, Usable;
    got := Receive(dec, block, lengths);
  }

  /** A header list goes from one end to the other, the block cut anywhere, and arrives as it was sent. */
  method Transmit(enc: Deflater, dec: Inflater, nvs: seq<Nv>, lengths: seq<nat>) returns (got: seq<Emitted>)
    requires Connected(enc, dec) && Sound(enc.c) && forall nv <- nvs :: SmallNv(nv)
    requires AllFit(enc.c.huff, BlockReps(enc.c, enc.State(), nvs))
    modifies enc.Objects(), dec.Objects()
    ensures Connected(enc, dec) && got == DeliveredAll(nvs)
    ensures enc.State() == old(EncoderAfter(enc.c, enc.State(), nvs))
    ensures forall o <- enc.Objects() :: o in old(enc.Objects()) || fresh(o)
    ensures forall o <- dec.Objects() :: o in old(dec.Objects()) || fresh(o)
  {
    StepOf(enc.c, enc.State(), dec.State(), nvs);
    assert enc.Valid() && !enc.ctx.bad && dec.Resumable() && !dec.ctx.bad && enc.c == dec.c && enc.Objects() !! dec.Objects();
    hide *;
    var block := SendBeside(enc, dec, nvs);
    got := ReceiveBeside(enc, dec, block, lengths);
    IsConnected(enc, dec);
  }

  lemma IsConnected(enc: Deflater, dec: Inflater)
    requires enc.Valid() && !enc.ctx.bad && dec.Resumable() && !dec.ctx.bad
    requires enc.c == dec.c && InSync(enc.c, enc.State(), dec.State()) && enc.Objects() !! dec.Objects()
    ensures Connected(enc, dec)
  {
  }

  lemma StepOf(c: Codec, e: Encoder, d: Decoder, nvs: seq<Nv>)
    requires Sound(c) && InSync(c, e, d) && (forall nv <- nvs :: SmallNv(nv)) && AllFit(c.huff, BlockReps(c, e, nvs))
    ensures Usable(c) && Decoding.Valid(c, d) && |BlockWire(c, e, nvs)| <= BoundOf(nvs)
    ensures var r := Inflate(c, d, BlockWire(c, e, nvs));
            r.Next? && r.out == DeliveredAll(nvs) && InSync(c, EncoderAfter(c, e, nvs), r.d)
  {
    BlockInSync(c, e, d, nvs);
    var reps := RepsOf(c, e.table, e.max, nvs);
    assert forall i :: 0 <= i < |reps| ==> reps[i] == BlockReps(c, e, nvs)[|Announced(e)| + i];
    AcceptedBound(c, e, nvs);
  }

  /** A change of the table size, applied at both ends. */
  method Resize(enc: Deflater, dec: Inflater, size: nat)
    requires Connected(enc, dec) && size <= UINT32_MAX
    modifies enc.Objects(), dec.Objects()
    ensures Connected(enc, dec) && enc.State() == old(EncoderResize(enc.State(), size))
    ensures enc.Objects() <= old(enc.Objects()) && dec.Objects() <= old(dec.Objects())
  {
    ResizeInSync(enc.c, enc.State(), dec.State(), size);
    var phase := dec.phase;
    assert phase == dec.State().phase && (phase == Start || phase == ExpectTableSize);
    hide InSync, Deflater.Valid, Deflater.State, Inflater.Resumable, Inflater.State, EncoderResize, DecoderResize;
    ResizeEncoder(enc, dec, size);
    var ok := ResizeDecoder(enc, dec, size);
  }

  method ChangeEncoder(enc: Deflater, size: nat)
    requires enc.Valid() && size <= UINT32_MAX
    modifies enc.Objects()
    ensures enc.Valid() && enc.ctx.bad == old(enc.ctx.bad) && enc.State() == old(EncoderResize(enc.State(), size))
    ensures enc.Objects() <= old(enc.Objects())
  {
    hide Deflater.Valid, Deflater.State, EncoderResize;
    enc.ChangeTableSize(size);
  }

  method ChangeDecoder(dec: Inflater, size: nat) returns (ok: bool)
    requires dec.Resumable() && size <= UINT32_MAX && (dec.phase == Start || dec.phase == ExpectTableSize)
    requires dec.State().phase == Start || dec.State().phase == ExpectTableSize
    modifies dec.Objects()
    ensures ok && dec.Resumable() && dec.ctx.bad == old(dec.ctx.bad) && dec.State() == old(DecoderResize(dec.State(), size))
    ensures dec.Objects() <= old(dec.Objects())
  {
    hide Inflater.Resumable, Inflater.State, DecoderResize;
    ok := dec.ChangeTableSize(size);
  }

  method ResizeEncoder(enc: Deflater, dec: Inflater, size: nat)
    requires enc.Valid() && dec.Resumable() && size <= UINT32_MAX && enc.Objects() !! dec.Objects()
    modifies enc.Objects()
    ensures enc.Valid() && enc.ctx.bad == old(enc.ctx.bad) && enc.State() == old(EncoderResize(enc.State(), size))
    ensures enc.Objects() <= old(enc.Objects()) && dec.Objects() == old(dec.Objects()) && enc.Objects() !! dec.Objects()
    ensures dec.Resumable() && dec.ctx.bad == old(dec.ctx.bad) && dec.State() == old(dec.State()) && dec.phase == old(dec.phase)
  {
    hide Deflater.Valid, Deflater.State, Inflater.Resumable, Inflater.State, EncoderResize;
    ChangeEncoder(enc, size);
  }

  method ResizeDecoder(enc: Deflater, dec: Inflater, size: nat) returns (ok: bool)
    requires enc.Valid() && dec.Resumable() && size <= UINT32_MAX && enc.Objects() !! dec.Objects()
    requires dec.phase == Start || dec.phase == ExpectTableSize
    requires dec.State().phase == Start || dec.State().phase == ExpectTableSize
    modifies dec.Objects()
    ensures ok && dec.Resumable() && dec.ctx.bad == old(dec.ctx.bad) && dec.State() == old(DecoderResize(dec.State(), size))
    ensures dec.Objects() <= old(dec.Objects()) && enc.Objects() == old(enc.Objects()) && enc.Objects() !! dec.Objects()
    ensures enc.Valid() && enc.ctx.bad == old(enc.ctx.bad) && enc.State() == old(enc.State())
  {
    hide Deflater.Valid, Deflater.State, Inflater.Resumable, Inflater.State, DecoderResize;
    ok := ChangeDecoder(dec, size);
  }

  /** The encoder after an event, the lists that arrive with it, and whether the decoder accepts it. */
  function EncoderOn(c: Codec, e: Encoder, ev: Event): Encoder
    requires Sound(c)
  {
    if ev.Resize? then EncoderResize(e, ev.size) else EncoderAfter(c, e, ev.nvs)
  }

  function ListsOf(ev: Event): seq<seq<Emitted>>
  {
    if ev.Resize? then [] else [DeliveredAll(ev.nvs)]
  }

  predicate EventFits(c: Codec, e: Encoder, ev: Event)
    requires Sound(c)
  {
    ev.Block? ==> AllFit(c.huff, BlockReps(c, e, ev.nvs))
  }

  lemma EventStep(c: Codec, e: Encoder, events: seq<Event>, i: nat)
    requires Sound(c) && i < |events| && AllAccepted(c, e, events[i..])
    ensures EventFits(c, e, events[i]) && AllAccepted(c, EncoderOn(c, e, events[i]), events[i + 1..])
    ensures SentLists(events[i..]) == ListsOf(events[i]) + SentLists(events[i + 1..])
  {
    assert events[i..][1..] == events[i + 1..];
  }

  /** An event at both ends. */
  method OnEvent(enc: Deflater, dec: Inflater, ev: Event, lengths: seq<nat>) returns (lists: seq<seq<Emitted>>)
    requires Connected(enc, dec) && Sound(enc.c) && SmallEvent(ev) && EventFits(enc.c, enc.State(), ev)
    modifies enc.Objects(), dec.Objects()
    ensures Connected(enc, dec) && lists == ListsOf(ev) && enc.State() == old(EncoderOn(enc.c, enc.State(), ev))
    ensures forall o <- enc.Objects() :: o in old(enc.Objects()) || fresh(o)
    ensures forall o <- dec.Objects() :: o in old(dec.Objects()) || fresh(o)
  {
    hide InSync, Connected, Deflater.State, DeliveredAll, AllFit, BlockReps, EncoderAfter, EncoderResize, Deflater.Objects, Inflater.Objects;
    match ev {
      case Resize(size) =>
        Resize(enc, dec, size);
        lists := [];
      case Block(nvs) =>
        var got := Transmit(enc, dec, nvs, lengths);
        lists := [got];
    }
  }

  /** A whole connection: every list that is sent arrives as it was sent, whatever happens to the table sizes. */
  method Hold(c: Codec, limit: nat, events: seq<Event>, lengths: seq<seq<nat>>) returns (lists: seq<seq<Emitted>>)
    requires Sound(c) && limit <= UINT32_MAX && |lengths| == |events| && forall ev <- events :: SmallEvent(ev)
    requires AllAccepted(c, NewEncoder(limit), events)
    ensures lists == SentLists(events)
  {
    hide *;
    var enc, dec := Connect(c, limit);
    lists := [];
    assert events[0..] == events;
    for i := 0 to |events|
      invariant Connected(enc, dec) && enc.c == c && (forall o <- enc.Objects() :: fresh(o)) && (forall o <- dec.Objects() :: fresh(o))
      invariant AllAccepted(c, enc.State(), events[i..]) && lists + SentLists(events[i..]) == SentLists(events)
    {
      EventStep(c, enc.State(), events, i);
      assert events[i] in events;
      var more := OnEvent(enc, dec, events[i], lengths[i]);
      lists := lists + more;
    }
    NoLists();
    assert events[|events|..] == [];
  }

  lemma NoLists()
    ensures SentLists([]) == []
  {
  }

  /** Both ends of a new connection. */
  method Connect(c: Codec, limit: nat) returns (enc: Deflater, dec: Inflater)
    requires Sound(c) && limit <= UINT32_MAX
    ensures Connected(enc, dec) && enc.c == c && enc.State() == NewEncoder(limit) && fresh(enc.Objects()) && fresh(dec.Objects())
  {
    InitiallyInSync(c, limit);
    assert Usable(c);
    hide InSync, Sound, Usable, Deflater.Valid, Deflater.State, Inflater.Resumable, Inflater.State, NewEncoder;
    enc := new Deflater(c, limit);
    dec := ConnectDecoder(c, enc);
  }

  method ConnectDecoder(c: Codec, enc: Deflater) returns (dec: Inflater)
    requires Usable(c) && enc.Valid() && !enc.ctx.bad
    ensures dec.Resumable() && !dec.ctx.bad && dec.c == c && dec.State() == NewDecoder() && fresh(dec.Objects())
    ensures enc.Valid() && !enc.ctx.bad && enc.State() == old(enc.State()) && enc.Objects() == old(enc.Objects())
    ensures enc.Objects() !! dec.Objects()
  {
    hide Usable, Deflater.Valid, Deflater.State, Inflater.Resumable, Inflater.State, NewDecoder;
    dec := new Inflater(c);
  }
}
