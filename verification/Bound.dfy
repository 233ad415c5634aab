/** `nghttp2_hd_deflate_bound`: how many bytes a block can take. */
module Bound {
  import opened Bits
  import opened HeaderTable
  import opened Encoding
  import H = Huffman
  import opened Reading
  import opened Connection
  import P = PrefixInt

  /** The bytes of all names and values. */
  function Payload(nvs: seq<Nv>): nat
  {
    if nvs == [] then 0 else |nvs[0].field.name| + |nvs[0].field.value| + Payload(nvs[1..])
  }

  lemma {:induction false} PayloadAppend(nvs: seq<Nv>, nv: Nv)
    ensures Payload(nvs + [nv]) == Payload(nvs) + |nv.field.name| + |nv.field.value|
  {
    if nvs == [] {
      assert (nvs + [nv])[1..] == [];
    } else {
      assert (nvs + [nv])[1..] == nvs[1..] + [nv];
      PayloadAppend(nvs[1..], nv);
    }
  }

  method DeflateBound(nvs: seq<Nv>) returns (n: nat)
    ensures n == BoundOf(nvs)
  {
    n := 12;
    n := n + 6 * 2 * |nvs|;
    for i := 0 to |nvs|
      invariant n == 12 + 12 * |nvs| + Payload(nvs[..i])
    {
      assert nvs[..i + 1] == nvs[..i] + [nvs[i]];
      PayloadAppend(nvs[..i], nvs[i]);
      n := n + |nvs[i].field.name| + |nvs[i].field.value|;
    }
    assert nvs[..|nvs|] == nvs;
  }

  /** An integer below 2^28 takes at most five bytes, any 32-bit integer at most six. */
  lemma LengthBound(first: Byte, n: nat, prefix: nat)
    requires 1 <= prefix <= 7
    ensures n <= UINT32_MAX ==> |P.Encoded(first, n, prefix)| <= 6
    ensures n < 0x1000_0000 + P.Mask(prefix) ==> |P.Encoded(first, n, prefix)| <= 5
    ensures n >= 0x1000_0000 + P.Mask(prefix) ==> |P.Encoded(first, n, prefix)| >= 6
  {
    var k := P.Mask(prefix);
    if n >= k {
      Pow2Words();
      assert Pow2(28) == 0x1000_0000;
      if n <= UINT32_MAX {
        P.TailShort(n - k);
      }
      if n < 0x1000_0000 + k {
        P.TailLength(n - k, 4);
      } else {
        TailLong(n - k);
      }
    }
  }

  lemma TailLong(n: nat)
    requires n >= 0x1000_0000
    ensures |P.Tail(n)| >= 5
  {
    var n1: nat := n / 128;
    var n2: nat := n1 / 128;
    var n3: nat := n2 / 128;
    assert |P.Tail(n)| == 1 + |P.Tail(n1)| == 2 + |P.Tail(n2)| == 3 + |P.Tail(n3)|;
  }

  const HUGE: nat := 0x1000_0000 + 127

  /** Six bytes of length, the most a string can have. */
  predicate Huge(h: H.Tables, s: Bytes)
    requires |h.nbits| == |h.code| == 257
  {
    |s| >= HUGE && !UsesHuffman(h, s)
  }

  /** A huge string that does not shrink costs six bytes on top of its own, any other at most five. */
  lemma StringBound(h: H.Tables, s: Bytes)
    requires |h.nbits| == |h.code| == 257 && |s| <= UINT32_MAX
    ensures if Huge(h, s) then |StringWire(h, s)| == |s| + 6 else |StringWire(h, s)| <= |s| + 5
  {
    assert P.Mask(7) == 127 by {
      Pow2Small();
    }
    LengthBound(if UsesHuffman(h, s) then 0x80 else 0, |StringBody(h, s)|, 7);
  }

  /** A name that is in neither table unless it was put there, and two huge strings that do not shrink. */
  predicate Oversized(c: Codec, nv: Nv)
    requires |c.huff.nbits| == |c.huff.code| == 257
  {
    && Huge(c.huff, nv.field.name) && Huge(c.huff, nv.field.value)
    && !(0 <= c.dict.lookupToken(nv.field.name) <= MAX_STATIC_TOKEN)
  }

  lemma IndexedNameBound(h: H.Tables, idx: nat, value: Bytes, mode: Mode)
    requires |h.nbits| == |h.code| == 257 && |value| <= UINT32_MAX && idx < UINT32_MAX
    ensures |Wire(h, IndexedName(idx, value, mode))| <= 12 + |value|
  {
    LengthBound(FirstByte(mode), idx + 1, IndexPrefix(mode));
    StringBound(h, value);
  }

  lemma NewNameBound(h: H.Tables, name: Bytes, value: Bytes, mode: Mode)
    requires |h.nbits| == |h.code| == 257 && |name| <= UINT32_MAX && |value| <= UINT32_MAX
    ensures var n := |Wire(h, NewName(name, value, mode))|;
            if Huge(h, name) && Huge(h, value) then n == 13 + |name| + |value| else n <= 12 + |name| + |value|
  {
    StringBound(h, name);
    StringBound(h, value);
  }

  lemma IndexedBound(h: H.Tables, idx: nat)
    requires |h.nbits| == |h.code| == 257 && idx < UINT32_MAX
    ensures |Wire(h, Indexed(idx))| <= 6
  {
    LengthBound(0x80, idx + 1, 7);
  }

  /** A representation spells out nothing but the strings of its header, and no name of the static table. */
  lemma RepStrings(c: Codec, t: Table, max: nat, nv: Nv)
    requires Sound(c) && Size(t) <= max <= UINT32_MAX
    ensures match RepOf(c, t, max, nv)
            case SizeUpdate(_) => false
            case Indexed(idx) => idx < UINT32_MAX
            case IndexedName(idx, value, _) => idx < UINT32_MAX && value == nv.field.value
            case NewName(name, value, _) =>
              name == nv.field.name && value == nv.field.value && !(0 <= c.dict.lookupToken(name) <= MAX_STATIC_TOKEN)
  {
    SizeCount(t);
  }

  /** A new name and a value that take six bytes of length each. */
  predicate SpelledOut(h: H.Tables, rep: Rep)
    requires |h.nbits| == |h.code| == 257
  {
    rep.NewName? && Huge(h, rep.name) && Huge(h, rep.value)
  }

  /** What a header is allowed in the bound. */
  function Allowed(nv: Nv): nat
  {
    12 + |nv.field.name| + |nv.field.value|
  }

  /** A header takes one byte too many or none: the oversized ones do, whenever they are spelled out. */
  lemma RepBound(c: Codec, t: Table, max: nat, nv: Nv)
    requires Sound(c) && SmallNv(nv) && Size(t) <= max <= UINT32_MAX
    ensures var rep := RepOf(c, t, max, nv);
            if SpelledOut(c.huff, rep) then Oversized(c, nv) && !Fits(c.huff, rep) && |Wire(c.huff, rep)| == Allowed(nv) + 1
            else |Wire(c.huff, rep)| <= Allowed(nv)
  {
    RepStrings(c, t, max, nv);
    match RepOf(c, t, max, nv) {
      case Indexed(idx) => IndexedBound(c.huff, idx);
      case IndexedName(idx, value, mode) => IndexedNameBound(c.huff, idx, value, mode);
      case NewName(name, value, mode) => NewNameBound(c.huff, name, value, mode);
    }
  }

  /** How many headers are spelled out with two strings of that length. */
  function Spelled(h: H.Tables, reps: seq<Rep>): nat
    requires |h.nbits| == |h.code| == 257
  {
    if reps == [] then 0 else (if SpelledOut(h, reps[0]) then 1 else 0) + Spelled(h, reps[1..])
  }

  /** What the other headers leave of the bytes they are allowed. */
  function Spare(h: H.Tables, nvs: seq<Nv>, reps: seq<Rep>): int
    requires |h.nbits| == |h.code| == 257 && |nvs| == |reps|
  {
    if reps == [] then 0
    else (if SpelledOut(h, reps[0]) then 0 else Allowed(nvs[0]) - |Wire(h, reps[0])|) + Spare(h, nvs[1..], reps[1..])
  }

  lemma {:induction false} RepsBound(c: Codec, t: Table, max: nat, nvs: seq<Nv>)
    requires Sound(c) && Size(t) <= max <= UINT32_MAX && AllSmall(nvs)
    ensures var reps := RepsOf(c, t, max, nvs);
            && Spare(c.huff, nvs, reps) >= 0
            && |Wires(c.huff, reps)| + Spare(c.huff, nvs, reps) == 12 * |nvs| + Payload(nvs) + Spelled(c.huff, reps)
    decreases |nvs|
  {
    if nvs != [] {
      var reps, t' := RepsOf(c, t, max, nvs), TableAfter(c, t, max, nvs[0]);
      RepBound(c, t, max, nvs[0]);
      TableKept(c, t, max, nvs[0]);
      RepsBound(c, t', max, nvs[1..]);
      hide Wire, RepOf, TableAfter, SpelledOut, Oversized, Fits, SmallNv, Sound;
      assert reps[1..] == RepsOf(c, t', max, nvs[1..]);
      hide AllSmall;
    }
  }

  /** Only oversized headers that the decoder would refuse are spelled out so. */
  lemma {:induction false} SpelledAt(c: Codec, t: Table, max: nat, nvs: seq<Nv>, i: nat)
    requires Sound(c) && Size(t) <= max <= UINT32_MAX && AllSmall(nvs) && i < |nvs|
    ensures SpelledOut(c.huff, RepsOf(c, t, max, nvs)[i]) ==> Oversized(c, nvs[i]) && !Fits(c.huff, RepsOf(c, t, max, nvs)[i])
    decreases |nvs|
  {
    hide RepOf, TableAfter, SpelledOut, Oversized, Fits;
    if i == 0 {
      RepBound(c, t, max, nvs[0]);
    } else {
      TableKept(c, t, max, nvs[0]);
      SpelledAt(c, TableAfter(c, t, max, nvs[0]), max, nvs[1..], i - 1);
    }
  }

  lemma {:induction false} NoneSpelled(h: H.Tables, reps: seq<Rep>)
    requires |h.nbits| == |h.code| == 257 && forall i :: 0 <= i < |reps| ==> !SpelledOut(h, reps[i])
    ensures Spelled(h, reps) == 0
  {
    hide SpelledOut;
    if reps != [] {
      NoneSpelled(h, reps[1..]);
    }
  }

  predicate AllSmall(nvs: seq<Nv>)
  {
    forall i :: 0 <= i < |nvs| ==> SmallNv(nvs[i])
  }

  lemma TableKept(c: Codec, t: Table, max: nat, nv: Nv)
    requires Sound(c) && Size(t) <= max
    ensures Size(TableAfter(c, t, max, nv)) <= max
  {
  }

  /** The size updates take at most the twelve bytes set aside for them. */
  lemma UpdatesBound(h: H.Tables, e: Encoder)
    requires |h.nbits| == |h.code| == 257 && e.max <= UINT32_MAX
    ensures |Wires(h, Announced(e))| <= 12
    ensures e.notify && 0x1000_0000 + 31 <= e.minMax < e.max ==> |Wires(h, Announced(e))| == 12
  {
    assert P.Mask(5) == 31 by {
      Pow2Small();
    }
    LengthBound(0x20, e.max, 5);
    assert [SizeUpdate(e.max)][1..] == [];
    if e.max > e.minMax {
      LengthBound(0x20, e.minMax, 5);
      assert [SizeUpdate(e.minMax), SizeUpdate(e.max)][1..] == [SizeUpdate(e.max)];
      assert |Wires(h, [SizeUpdate(e.minMax), SizeUpdate(e.max)])| == |Wire(h, SizeUpdate(e.minMax))| + |Wires(h, [SizeUpdate(e.max)])|;
    }
    assert |Wires(h, [SizeUpdate(e.max)])| == |Wire(h, SizeUpdate(e.max))|;
  }

  /** The bound of `nghttp2_hd_deflate_bound`. */
  function BoundOf(nvs: seq<Nv>): nat
  {
    12 + 12 * |nvs| + Payload(nvs)
  }

  /**
   * In every state and for every list: the block stays within the bound if and only if no more headers
   * are spelled out with two such strings than the others and the size updates leave bytes unused.
   */
  lemma BlockExact(c: Codec, e: Encoder, nvs: seq<Nv>)
    requires Sound(c) && Size(e.table) <= e.max <= UINT32_MAX && AllSmall(nvs)
    ensures var reps := RepsOf(c, e.table, e.max, nvs);
            var room := 12 - |Wires(c.huff, Announced(e))| + Spare(c.huff, nvs, reps);
            && 0 <= room && |BlockWire(c, e, nvs)| + room == BoundOf(nvs) + Spelled(c.huff, reps)
            && (|BlockWire(c, e, nvs)| <= BoundOf(nvs) <==> Spelled(c.huff, reps) <= room)
  {
    WiresConcat(c.huff, Announced(e), RepsOf(c, e.table, e.max, nvs));
    RepsBound(c, e.table, e.max, nvs);
    UpdatesBound(c.huff, e);
    hide Wires, RepsOf, Spelled, Spare, SpelledOut, Sound, Oversized, Fits;
  }

  /** The bound holds in every state for lists without oversized headers. */
  lemma BlockBound(c: Codec, e: Encoder, nvs: seq<Nv>)
    requires Sound(c) && Size(e.table) <= e.max <= UINT32_MAX
    requires forall nv <- nvs :: SmallNv(nv) && !Oversized(c, nv)
    ensures |BlockWire(c, e, nvs)| <= BoundOf(nvs)
  {
    BlockExact(c, e, nvs);
    hide BlockWire, RepsOf, Spelled, Spare, SpelledOut, Sound, Oversized, Fits;
    forall i | 0 <= i < |nvs|
      ensures !SpelledOut(c.huff, RepsOf(c, e.table, e.max, nvs)[i])
    {
      SpelledAt(c, e.table, e.max, nvs, i);
    }
    NoneSpelled(c.huff, RepsOf(c, e.table, e.max, nvs));
  }

  /** And for every list whose strings the decoder accepts. */
  lemma AcceptedBound(c: Codec, e: Encoder, nvs: seq<Nv>)
    requires Sound(c) && Size(e.table) <= e.max <= UINT32_MAX
    requires (forall nv <- nvs :: SmallNv(nv)) && AllFit(c.huff, RepsOf(c, e.table, e.max, nvs))
    ensures |BlockWire(c, e, nvs)| <= BoundOf(nvs)
  {
    BlockExact(c, e, nvs);
    hide BlockWire, RepsOf, Spelled, Spare, SpelledOut, Sound, Oversized, Fits;
    forall i | 0 <= i < |nvs|
      ensures !SpelledOut(c.huff, RepsOf(c, e.table, e.max, nvs)[i])
    {
      SpelledAt(c, e.table, e.max, nvs, i);
    }
    NoneSpelled(c.huff, RepsOf(c, e.table, e.max, nvs));
  }

  // ---- Where the bound is too small ----

  /** A new encoder after two size changes: an empty table, and two updates of six bytes to come. */
  function Worst(): Encoder
  {
    EncoderResize(EncoderResize(NewEncoder(UINT32_MAX), 0x1000_0000 + 31), 0x1000_0000 + 32)
  }

  const WORST_MAX: nat := 0x1000_0000 + 32

  /** The two updates take all the twelve bytes. */
  lemma WorstBlock(c: Codec, nvs: seq<Nv>)
    requires Sound(c)
    ensures Worst().table == [] && Worst().max == WORST_MAX
    ensures |BlockWire(c, Worst(), nvs)| == 12 + |Wires(c.huff, RepsOf(c, [], WORST_MAX, nvs))|
  {
    var e := Worst();
    assert e.table == [] && e.max == WORST_MAX && e.minMax == 0x1000_0000 + 31 && e.notify;
    WiresConcat(c.huff, Announced(e), RepsOf(c, [], e.max, nvs));
    UpdatesBound(c.huff, e);
    hide Wires, RepsOf, Sound, Announced;
  }

  lemma {:induction false} EntryBelow(t: Table, i: nat)
    requires i < |t|
    ensures EntryRoom(t[i]) <= Size(t)
  {
    if i < |t| - 1 {
      EntryBelow(t[..|t| - 1], i);
    }
  }

  /** A table below this size has no room for a huge name. */
  const SHORT: nat := HUGE + ENTRY_OVERHEAD

  /** There an oversized header is always spelled out and leaves the table as it is. */
  lemma OversizedRep(c: Codec, t: Table, max: nat, nv: Nv)
    requires Sound(c) && Size(t) <= max < SHORT && SmallNv(nv) && Oversized(c, nv)
    ensures |Wire(c.huff, RepOf(c, t, max, nv))| == Allowed(nv) + 1 && TableAfter(c, t, max, nv) == t
  {
    forall i | 0 <= i < |t|
      ensures t[i].name != nv.field.name
    {
      EntryBelow(t, i);
    }
    RepBound(c, t, max, nv);
  }

  /** The headers that are not oversized. */
  function Others(c: Codec, nvs: seq<Nv>): (r: seq<Nv>)
    requires |c.huff.nbits| == |c.huff.code| == 257
    ensures |r| <= |nvs| && (AllSmall(nvs) ==> AllSmall(r)) && forall nv <- r :: !Oversized(c, nv)
  {
    if nvs == [] then [] else (if Oversized(c, nvs[0]) then [] else [nvs[0]]) + Others(c, nvs[1..])
  }

  /** There oversized headers do not change what the others take. */
  lemma {:induction false} OversizedApart(c: Codec, t: Table, max: nat, nvs: seq<Nv>)
    requires Sound(c) && Size(t) <= max < SHORT && AllSmall(nvs)
    ensures var rest := Others(c, nvs);
            |Wires(c.huff, RepsOf(c, t, max, nvs))| - 13 * |nvs| - Payload(nvs) ==
            |Wires(c.huff, RepsOf(c, t, max, rest))| - 13 * |rest| - Payload(rest)
    decreases |nvs|
  {
    if nvs != [] {
      var t', rest := TableAfter(c, t, max, nvs[0]), Others(c, nvs);
      TableKept(c, t, max, nvs[0]);
      OversizedApart(c, t', max, nvs[1..]);
      if Oversized(c, nvs[0]) {
        OversizedRep(c, t, max, nvs[0]);
        assert rest == Others(c, nvs[1..]);
      } else {
        assert rest[0] == nvs[0] && rest[1..] == Others(c, nvs[1..]);
      }
      hide Wire, RepOf, TableAfter, Oversized, SmallNv, Sound, Others;
      assert RepsOf(c, t, max, nvs)[1..] == RepsOf(c, t', max, nvs[1..]);
      assert rest != [] ==> RepsOf(c, t, max, rest)[1..] == RepsOf(c, TableAfter(c, t, max, rest[0]), max, rest[1..]);
    }
  }

  /**
   * In that state the oversized headers of a list take one byte more each, and the others what they take
   * alone: the block exceeds its bound if and only if these are more bytes than the others leave unused.
   */
  lemma BoundOverrun(c: Codec, nvs: seq<Nv>)
    requires Sound(c) && AllSmall(nvs)
    ensures var rest := Others(c, nvs);
            var room := BoundOf(rest) - |BlockWire(c, Worst(), rest)|;
            && 0 <= room && |BlockWire(c, Worst(), nvs)| + room == BoundOf(nvs) + |nvs| - |rest|
            && (|BlockWire(c, Worst(), nvs)| <= BoundOf(nvs) <==> |nvs| - |rest| <= room)
  {
    var rest := Others(c, nvs);
    WorstBlock(c, nvs);
    WorstBlock(c, rest);
    OversizedApart(c, [], WORST_MAX, nvs);
    assert Size([]) == 0 && forall nv <- rest :: SmallNv(nv);
    hide Wires, RepsOf, Others, Sound, Oversized, BlockWire, Worst;
    BlockBound(c, Worst(), rest);
  }

  /** Exactly the oversized headers can make a block longer than its bound. */
  lemma BoundExact(c: Codec, nv: Nv)
    requires Sound(c) && SmallNv(nv)
    ensures (forall e: Encoder | Size(e.table) <= e.max <= UINT32_MAX :: |BlockWire(c, e, [nv])| <= BoundOf([nv])) <==> !Oversized(c, nv)
  {
    hide BlockWire, Oversized, SmallNv, Size;
    if Oversized(c, nv) {
      BoundOverrun(c, [nv]);
      assert [nv][1..] == [] && Others(c, [nv]) == [];
      WorstBlock(c, []);
      WorstIsSound();
      assert |BlockWire(c, Worst(), [nv])| > BoundOf([nv]);
    } else {
      forall e: Encoder | Size(e.table) <= e.max <= UINT32_MAX
        ensures |BlockWire(c, e, [nv])| <= BoundOf([nv])
      {
        BlockBound(c, e, [nv]);
      }
    }
  }

  lemma WorstIsSound()
    ensures Size(Worst().table) <= Worst().max <= UINT32_MAX
  {
  }
}
