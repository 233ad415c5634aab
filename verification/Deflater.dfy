/** The HPACK encoder `nghttp2_hd_deflater`. */
module Deflaters {
  import opened Bits
  import opened HeaderTable
  import opened RingBuffers
  import opened HdMaps
  import opened HdContexts
  import opened Encoding
  import opened Emitting
  import H = Huffman
  import P = PrefixInt
  import B = Bufs

  class Deflater {
    const c: Codec
    const ctx: HdContext
    const hdMap: HdMap  // `map`
    const limit: nat    // `deflate_hd_table_bufsize_max`
    var minMax: nat     // `min_hd_table_bufsize_max`
    var notify: bool    // `notify_table_size_change`

    ghost predicate Valid()
      reads this, ctx, ctx.ring, ctx.ring.buffer, ctx.ring.contents, hdMap.table
    {
      && Sound(c) && ctx.index == hdMap && ctx.Valid() && minMax <= UINT32_MAX && limit <= UINT32_MAX
      && Tagged(c.dict, ctx.ring.contents)
    }

    /** The encoder as a value. */
    ghost function State(): Encoder
      reads this, ctx, ctx.ring
    {
      Encoder(ctx.Table(), ctx.bufsizeMax, limit, minMax, notify)
    }

    /** Everything the encoder changes. */
    ghost function Objects(): set<object>
      reads this, ctx, ctx.ring
    {
      {this, hdMap.table} + ctx.Objects()
    }

    /** `nghttp2_hd_deflate_init2` */
    constructor (c: Codec, limit: nat)
      requires Sound(c) && limit <= UINT32_MAX
      ensures Valid() && State() == NewEncoder(limit) && !ctx.bad && this.c == c
      ensures fresh(Objects())
    {
      hide Sound, WellFormed, Size, HashOf, Bucket;
      var m := new HdMap();
      var x := new HdContext(m);
      if limit < 4096 {
        x.bufsizeMax := limit;
      }
      this.c, this.ctx, this.hdMap, this.limit := c, x, m, limit;
      minMax, notify := UINT32_MAX, limit < 4096;
    }

    /** `nghttp2_hd_deflate_change_table_size` */
    method ChangeTableSize(settings: nat)
      requires Valid() && settings <= UINT32_MAX
      modifies this, ctx, ctx.ring, ctx.ring.contents, hdMap.table
      ensures Valid() && State() == EncoderResize(old(State()), settings)
      ensures Objects() <= old(Objects()) && ctx.bad == old(ctx.bad)
    {
      hide Evict, Size;
      var next := Min(settings, limit);
      ctx.bufsizeMax := next;
      minMax := Min(minMax, next);
      notify := true;
      ctx.Shrink();
    }

    /** `search_hd_table`: the index in the combined address space, as `Search` defines it. */
    method SearchHdTable(f: Field, token: int, hash: nat, mode: Mode) returns (index: int, exact: bool)
      requires Valid() && token == c.dict.lookupToken(f.name) && hash == HashOf(c.dict, f.name)
      ensures Found(index, exact) == Search(c.dict, ctx.Table(), f, mode == NeverIndexing)
    {
      hide Scan, Numbered, Size, ScanStatic, H.WellFormed, Bucket, HashOf;
      var nameOnly := mode == NeverIndexing;
      var ent, isExact := hdMap.Find(c.dict, f, token, hash, nameOnly, ctx.ring.contents);
      if !isExact && 0 <= token <= MAX_STATIC_TOKEN {
        index, exact := SearchStaticTable(f, token, nameOnly);
        return;
      }
      if ent == null {
        return -1, false;
      }
      SeqGivesIndex(ctx.ring.contents, ctx.nextSeq, Scan(ctx.Table(), f, nameOnly).index);
      return Uint32(ctx.nextSeq - 1 - ent.seqno) + STATIC_LENGTH, isExact;
    }

    /** `search_static_table` */
    method SearchStaticTable(f: Field, token: nat, nameOnly: bool) returns (index: int, exact: bool)
      requires WellFormed(c.dict) && token <= MAX_STATIC_TOKEN
      ensures Found(index, exact) == if nameOnly then Found(token, false) else ScanStatic(c.dict, f, token, token)
    {
      if nameOnly {
        return token, false;
      }
      var i := token;
      while i <= MAX_STATIC_TOKEN && c.dict.lookupToken(c.dict.entries[i].name) == token
        invariant token <= i <= MAX_STATIC_TOKEN + 1
        invariant ScanStatic(c.dict, f, token, token) == ScanStatic(c.dict, f, token, i)
      {
        if c.dict.entries[i].value == f.value {
          return i, true;
        }
        i := i + 1;
      }
      return token, false;
    }

    /** `add_hd_table_incremental` on the encoder's context. */
    method AddToTable(f: Field, token: int, hash: nat)
      requires Valid() && token == c.dict.lookupToken(f.name) && hash == HashOf(c.dict, f.name)
      modifies ctx, ctx.ring, ctx.ring.buffer, ctx.ring.contents, hdMap.table
      ensures Valid() && State() == old(State()).(table := Add(old(ctx.Table()), f, ctx.bufsizeMax))
      ensures ctx.bad == old(ctx.bad) && (ctx.ring.buffer == old(ctx.ring.buffer) || fresh(ctx.ring.buffer))
      ensures forall k :: 0 <= k < |ctx.ring.contents| ==> ctx.ring.contents[k] in old(ctx.ring.contents) || fresh(ctx.ring.contents[k])
    {
      hide Add, Size, H.WellFormed, WellFormed;
      ctx.AddIncremental(f, token, hash);
    }

    /** What `deflate_nv` decides before it writes anything. */
    method Decide(nv: Nv) returns (token: int, hash: nat, mode: Mode, idx: int, exact: bool)
      requires Valid()
      ensures token == c.dict.lookupToken(nv.field.name) && hash == HashOf(c.dict, nv.field.name)
      ensures -1 <= idx < UINT32 + STATIC_LENGTH && (exact ==> idx >= 0)
      ensures RepOf(c, ctx.Table(), ctx.bufsizeMax, nv) == if exact then Indexed(idx) else LiteralRep(idx, nv.field, mode)
      ensures TableAfter(c, ctx.Table(), ctx.bufsizeMax, nv) ==
              if !exact && mode == WithIndexing then Add(ctx.Table(), nv.field, ctx.bufsizeMax) else ctx.Table()
    {
      assert |c.dict.staticHash| == STATIC_LENGTH;
      hide Add, Size, H.WellFormed, WellFormed, Search, IndexingMode;
      token := c.dict.lookupToken(nv.field.name);
      hash := HashOf(c.dict, nv.field.name);
      mode := IndexingMode(ctx.bufsizeMax, nv, token);
      idx, exact := SearchHdTable(nv.field, token, hash, mode);
      SizeCount(ctx.Table());
    }

    /** `deflate_nv`: writes the representation of one header and changes the table as it says. */
    method DeflateNv(bufs: B.Bufs, nv: Nv) returns (ok: bool)
      requires Valid() && bufs.Valid() && |nv.field.name| <= SIZE_MAX && |nv.field.value| <= SIZE_MAX
      modifies bufs, bufs.data, ctx, ctx.ring, ctx.ring.buffer, ctx.ring.contents, hdMap.table
      ensures Valid() && bufs.Valid()
      ensures Appended(old(bufs.Contents()), old(bufs.Room()), bufs.Contents(), bufs.Room(), ok, Wire(c.huff, old(RepOf(c, ctx.Table(), ctx.bufsizeMax, nv))))
      ensures State() == old(State().(table := TableAfter(c, ctx.Table(), ctx.bufsizeMax, nv)))
      ensures ctx.bad == old(ctx.bad) && (ctx.ring.buffer == old(ctx.ring.buffer) || fresh(ctx.ring.buffer))
      ensures forall k :: 0 <= k < |ctx.ring.contents| ==> ctx.ring.contents[k] in old(ctx.ring.contents) || fresh(ctx.ring.contents[k])
    {
      hide Add, Size, RepOf, TableAfter, Wire, HashOf, WellFormed, H.PrefixCode, H.TableWalks, Numbered, Fields;
      hide B.Bufs.Contents, B.Bufs.Room, B.Bufs.Valid, HdContext.Valid;
      var token, hash, mode, idx, exact := Decide(nv);
      if exact {
        ok := EmitIndexedBlock(bufs, c.huff, idx);
        return;
      }
      if mode == WithIndexing {
        AddToTable(nv.field, token, hash);
      }
      ok := EmitLiteral(bufs, c.huff, idx, nv.field, mode);
    }

    /** The size updates at the start of a block. */
    method EmitAnnounced(bufs: B.Bufs) returns (ok: bool)
      requires Valid() && bufs.Valid()
      modifies this, bufs, bufs.data
      ensures Valid() && bufs.Valid()
      ensures Appended(old(bufs.Contents()), old(bufs.Room()), bufs.Contents(), bufs.Room(), ok, Wires(c.huff, old(Announced(State()))))
      ensures State() == old(State().(notify := false, minMax := if State().notify then UINT32_MAX else State().minMax))
      ensures Objects() == old(Objects())
    {
      hide Size, WellFormed, H.PrefixCode, H.TableWalks, Numbered, Fields, Wire;
      hide B.Bufs.Contents, B.Bufs.Room, B.Bufs.Valid;
      assert ctx.bufsizeMax <= UINT32_MAX;
      hide HdContext.Valid;
      WiresOne(c.huff, SizeUpdate(ctx.bufsizeMax), [SizeUpdate(ctx.bufsizeMax)]);
      WiresOne(c.huff, SizeUpdate(minMax), [SizeUpdate(minMax), SizeUpdate(ctx.bufsizeMax)]);
      if notify {
        var min := minMax;
        notify := false;
        minMax := UINT32_MAX;
        if ctx.bufsizeMax > min {
          ok := EmitTableSize(bufs, c.huff, min);
          if !ok {
            return;
          }
        }
        ok := EmitTableSize(bufs, c.huff, ctx.bufsizeMax);
      } else {
        ok := true;
        assert bufs.Contents() + [] == bufs.Contents();
      }
    }

    /** The headers of a block. */
    method DeflateNvs(bufs: B.Bufs, nvs: seq<Nv>) returns (ok: bool)
      requires Valid() && bufs.Valid() && forall nv <- nvs :: |nv.field.name| <= SIZE_MAX && |nv.field.value| <= SIZE_MAX
      modifies bufs, bufs.data, ctx, ctx.ring, ctx.ring.buffer, ctx.ring.contents, hdMap.table
      ensures Valid() && bufs.Valid() && ctx.bad == old(ctx.bad)
      ensures Appended(old(bufs.Contents()), old(bufs.Room()), bufs.Contents(), bufs.Room(), ok, Wires(c.huff, old(RepsOf(c, State().table, State().max, nvs))))
      ensures ok ==> State() == old(State().(table := TableAfterAll(c, State().table, State().max, nvs)))
      ensures forall o <- Objects() :: o in old(Objects()) || fresh(o)
    {
      hide Size, WellFormed, H.PrefixCode, H.TableWalks, Numbered, Fields, Wire, Wires, RepsOf, RepOf, TableAfter, TableAfterAll;
      hide B.Bufs.Contents, B.Bufs.Room, B.Bufs.Valid, HdContext.Valid;
      ok := true;
      ghost var max, before, room := ctx.bufsizeMax, bufs.Contents(), bufs.Room();
      ghost var wire, goal := Wires(c.huff, RepsOf(c, ctx.Table(), max, nvs)), TableAfterAll(c, ctx.Table(), max, nvs);
      assert nvs[0..] == nvs;
      for i := 0 to |nvs|
        invariant Valid() && bufs.Valid() && ctx.bad == old(ctx.bad) && ctx.bufsizeMax == max
        invariant minMax == old(minMax) && notify == old(notify)
        invariant ctx.ring.buffer == old(ctx.ring.buffer) || fresh(ctx.ring.buffer)
        invariant forall k :: 0 <= k < |ctx.ring.contents| ==> ctx.ring.contents[k] in old(ctx.ring.contents) || fresh(ctx.ring.contents[k])
        invariant TableAfterAll(c, ctx.Table(), max, nvs[i..]) == goal
        invariant Rest(bufs.Contents(), bufs.Room(), Wires(c.huff, RepsOf(c, ctx.Table(), max, nvs[i..])), before, room, wire)
      {
        ghost var t, now, left := ctx.Table(), bufs.Contents(), bufs.Room();
        NvsStep(c, t, max, nvs, i);
        ok := DeflateNv(bufs, nvs[i]);
        ghost var w := Wire(c.huff, RepOf(c, t, max, nvs[i]));
        ghost var rest := Wires(c.huff, RepsOf(c, TableAfter(c, t, max, nvs[i]), max, nvs[i + 1..]));
        RestStep(now, left, w, rest, before, room, wire);
        if !ok {
          return;
        }
      }
      NvsDone(c, ctx.Table(), max);
      assert nvs[|nvs|..] == [];
    }

    /**
     * `nghttp2_hd_deflate_hd_bufs`: appends the whole block, or fails for want of room; after a
     * failure it keeps failing.
     */
    method DeflateHdBufs(bufs: B.Bufs, nvs: seq<Nv>) returns (r: Outcome)
      requires Valid() && bufs.Valid() && forall nv <- nvs :: |nv.field.name| <= SIZE_MAX && |nv.field.value| <= SIZE_MAX
      modifies this, bufs, bufs.data, ctx, ctx.ring, ctx.ring.buffer, ctx.ring.contents, hdMap.table
      ensures Valid() && bufs.Valid()
      ensures old(ctx.bad) <==> r == HeaderComp
      ensures ctx.bad <==> r != Done
      ensures !old(ctx.bad) ==> Appended(old(bufs.Contents()), old(bufs.Room()), bufs.Contents(), bufs.Room(), r == Done, old(BlockWire(c, State(), nvs)))
      ensures r == Done ==> State() == old(EncoderAfter(c, State(), nvs))
      ensures forall o <- Objects() :: o in old(Objects()) || fresh(o)
    {
      assert Sound(c) && WellFormed(c.dict) && |c.huff.nbits| == |c.huff.code| == 257;
      hide *;
      if ctx.bad {
        return HeaderComp;
      }
      ghost var e, b0, r0 := State(), bufs.Contents(), bufs.Room();
      ghost var updates, reps := Announced(e), RepsOf(c, e.table, e.max, nvs);
      WholeBlock(c, e, nvs);
      var ok := EmitAnnounced(bufs);
      ghost var e1, b1, r1 := State(), bufs.Contents(), bufs.Room();
      if ok {
        ok := DeflateNvs(bufs, nvs);
        AppendedTwice(b0, r0, b1, r1, Wires(c.huff, updates), bufs.Contents(), bufs.Room(), ok, Wires(c.huff, reps));
      } else {
        NotAppended(b0, r0, b1, r1, Wires(c.huff, updates), bufs.Contents(), bufs.Room(), Wires(c.huff, reps));
      }
      if !ok {
        GiveUp();
        return BufferError;
      }
      return Done;
    }

    method GiveUp()
      requires Valid()
      modifies ctx`bad
      ensures Valid() && ctx.bad && Objects() == old(Objects())
    {
      ctx.bad := true;
    }

    /** A block into memory not written to yet. */
    method DeflateWrapped(bufs: B.Bufs, nvs: seq<Nv>) returns (r: Outcome, len: nat)
      requires Valid() && forall nv <- nvs :: |nv.field.name| <= SIZE_MAX && |nv.field.value| <= SIZE_MAX
      requires bufs.Valid() && bufs.Contents() == []
      modifies this, bufs, bufs.data, ctx, ctx.ring, ctx.ring.buffer, ctx.ring.contents, hdMap.table
      ensures Valid()
      ensures old(ctx.bad) <==> r == HeaderComp
      ensures ctx.bad <==> r != Done
      ensures !old(ctx.bad) ==> (r == Done <==> |old(BlockWire(c, State(), nvs))| <= old(bufs.Room()))
      ensures r == Done ==> State() == old(EncoderAfter(c, State(), nvs))
      ensures forall o <- Objects() :: o in old(Objects()) || fresh(o)
      ensures r == Done ==> old(BlockWire(c, State(), nvs)) <= B.Memory(bufs.data) && len == |old(BlockWire(c, State(), nvs))|
    {
      assert WellFormed(c.dict) && |c.huff.nbits| == |c.huff.code| == 257;
      hide *;
      ghost var room, wire := bufs.Room(), BlockWire(c, State(), nvs);
      r := DeflateHdBufs(bufs, nvs);
      len := bufs.Len();
      bufs.NoGaps();
      if !old(ctx.bad) {
        OutputIs(room, bufs.Contents(), bufs.Room(), r == Done, wire);
      }
    }

    /** `nghttp2_hd_deflate_hd_vec`: the same into the caller's chunks, filled one after the other. */
    method DeflateHdVec(vec: seq<array<Byte>>, nvs: seq<Nv>) returns (r: Outcome, len: nat)
      requires Valid() && forall nv <- nvs :: |nv.field.name| <= SIZE_MAX && |nv.field.value| <= SIZE_MAX
      requires forall i, j :: 0 <= i < j < |vec| ==> vec[i] != vec[j]
      requires forall i :: 0 < i < |vec| ==> vec[i].Length > 0
      modifies this, vec, ctx, ctx.ring, ctx.ring.buffer, ctx.ring.contents, hdMap.table
      ensures Valid()
      ensures old(ctx.bad) <==> r == HeaderComp
      ensures ctx.bad <==> r != Done
      ensures !old(ctx.bad) ==> (r == Done <==> |old(BlockWire(c, State(), nvs))| <= B.TotalLength(vec))
      ensures r == Done ==> State() == old(EncoderAfter(c, State(), nvs))
      ensures forall o <- Objects() :: o in old(Objects()) || fresh(o)
      ensures r == Done ==> len <= |B.Memory(vec)| && B.Memory(vec)[..len] == old(BlockWire(c, State(), nvs))
    {
      hide *;
      ghost var objects := Objects();
      var bufs := new B.Bufs.Wrap(vec);
      assert Objects() == objects;
      r, len := DeflateWrapped(bufs, nvs);
      if vec == [] {
        NoBuffer();
      }
    }

    /** `nghttp2_hd_deflate_hd`: the same into one buffer. */
    method DeflateHd(buf: array<Byte>, nvs: seq<Nv>) returns (r: Outcome, len: nat)
      requires Valid() && forall nv <- nvs :: |nv.field.name| <= SIZE_MAX && |nv.field.value| <= SIZE_MAX
      modifies this, buf, ctx, ctx.ring, ctx.ring.buffer, ctx.ring.contents, hdMap.table
      ensures Valid()
      ensures old(ctx.bad) <==> r == HeaderComp
      ensures ctx.bad <==> r != Done
      ensures !old(ctx.bad) ==> (r == Done <==> |old(BlockWire(c, State(), nvs))| <= buf.Length)
      ensures r == Done ==> State() == old(EncoderAfter(c, State(), nvs))
      ensures forall o <- Objects() :: o in old(Objects()) || fresh(o)
      ensures r == Done ==> len <= buf.Length && buf[..len] == old(BlockWire(c, State(), nvs))
    {
      hide *;
      OneBuffer(buf);
      r, len := DeflateHdVec([buf], nvs);
      OneBuffer(buf);
    }
  }

  /** 0, `NGHTTP2_ERR_HEADER_COMP` after an earlier failure, or `NGHTTP2_ERR_BUFFER_ERROR` (`INSUFF_BUFSIZE`). */
  datatype Outcome = Done | HeaderComp | BufferError

  /** A block is its size updates and its headers. */
  lemma WholeBlock(c: Codec, e: Encoder, nvs: seq<Nv>)
    requires Sound(c)
    ensures |c.huff.nbits| == |c.huff.code| == 257
    ensures BlockWire(c, e, nvs) == Wires(c.huff, Announced(e)) + Wires(c.huff, RepsOf(c, e.table, e.max, nvs))
    ensures EncoderAfter(c, e, nvs) ==
            e.(notify := false, minMax := if e.notify then UINT32_MAX else e.minMax, table := TableAfterAll(c, e.table, e.max, nvs))
  {
    WiresConcat(c.huff, Announced(e), RepsOf(c, e.table, e.max, nvs));
  }

  lemma OutputIs(room: nat, now: Bytes, left: nat, ok: bool, wire: Bytes)
    requires Appended([], room, now, left, ok, wire)
    ensures ok <==> |wire| <= room
    ensures ok ==> now == wire
  {
  }

  lemma NoBuffer()
    ensures B.TotalLength([]) == 0 && B.Memory([]) == []
  {
  }

  lemma OneBuffer(buf: array<Byte>)
    ensures B.TotalLength([buf]) == buf.Length && B.Memory([buf]) == buf[..]
  {
    assert [buf][1..] == [] && [buf][..0] == [];
  }

  lemma NvsStep(c: Codec, t: Table, max: nat, nvs: seq<Nv>, i: nat)
    requires Sound(c) && i < |nvs|
    ensures var t' := TableAfter(c, t, max, nvs[i]);
            && Wires(c.huff, RepsOf(c, t, max, nvs[i..])) ==
               Wire(c.huff, RepOf(c, t, max, nvs[i])) + Wires(c.huff, RepsOf(c, t', max, nvs[i + 1..]))
            && TableAfterAll(c, t, max, nvs[i..]) == TableAfterAll(c, t', max, nvs[i + 1..])
  {
    hide RepOf, TableAfter, Wire;
    var reps := RepsOf(c, t, max, nvs[i..]);
    assert nvs[i..][0] == nvs[i] && nvs[i..][1..] == nvs[i + 1..];
    assert reps[1..] == RepsOf(c, TableAfter(c, t, max, nvs[i]), max, nvs[i + 1..]);
  }

  lemma NvsDone(c: Codec, t: Table, max: nat)
    requires Sound(c)
    ensures Wires(c.huff, RepsOf(c, t, max, [])) == [] && TableAfterAll(c, t, max, []) == t
  {
  }

  /** Of the output `wire`, to be appended to `before`, just `rest` is still to come. */
  ghost predicate Rest(now: Bytes, left: nat, rest: Bytes, before: Bytes, room: nat, wire: Bytes)
  {
    now + rest == before + wire && left - |rest| == room - |wire|
  }

  lemma RestStep(now: Bytes, left: nat, w: Bytes, rest: Bytes, before: Bytes, room: nat, wire: Bytes)
    requires Rest(now, left, w + rest, before, room, wire)
    ensures |w| <= left ==> Rest(now + w, left - |w|, rest, before, room, wire)
    ensures |w| > left ==> |wire| > room
  {
    assert now + w + rest == now + (w + rest);
  }

  lemma WiresOne(h: H.Tables, rep: Rep, reps: seq<Rep>)
    requires |h.nbits| == |h.code| == 257 && reps != [] && reps[0] == rep
    ensures Wires(h, reps) == Wire(h, rep) + Wires(h, reps[1..])
    ensures |reps| == 1 ==> Wires(h, reps) == Wire(h, rep)
    ensures |reps| == 2 ==> Wires(h, reps) == Wire(h, rep) + Wire(h, reps[1])
  {
    assert |reps| == 2 ==> reps[1..][0] == reps[1] && reps[1..][1..] == [];
  }

  /** The distance between sequence numbers is the position in the table, even after the counter wraps. */
  lemma SeqGivesIndex(entries: seq<Entry>, next: nat, i: int)
    requires Numbered(entries, next) && next < UINT32 && Size(Fields(entries)) < UINT32
    ensures 0 <= i < |entries| ==> Uint32(next - 1 - entries[i].seqno) == i
  {
    SizeCount(Fields(entries));
    if 0 <= i < |entries| {
      assert entries[i].seqno == Uint32(next - 1 - i);
    }
  }
}
