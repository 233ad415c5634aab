/** Which representation the encoder chooses, by the header and the tables alone. */
module Choosing {
  import opened Bits
  import opened HeaderTable
  import opened Encoding
  import opened Reading
  import H = Huffman
  import P = PrefixInt

  lemma TokenNames(c: Codec, name: Bytes)
    requires Sound(c)
    ensures var token := c.dict.lookupToken(name);
            && (token == TOKEN_AUTHORIZATION <==> name == Ascii("authorization"))
            && (token == TOKEN_COOKIE <==> name == Ascii("cookie"))
            && (Volatile(name) <==>
                  token == TOKEN_PATH || token == TOKEN_AGE || token == TOKEN_CONTENT_LENGTH || token == TOKEN_ETAG
                  || token == TOKEN_IF_MODIFIED_SINCE || token == TOKEN_IF_NONE_MATCH || token == TOKEN_LOCATION
                  || token == TOKEN_SET_COOKIE)
  {
    hide Ascii;
  }

  /** The indexing mode by the name of the header. */
  lemma ModeByName(c: Codec, max: nat, nv: Nv)
    requires Sound(c)
    ensures ModeOf(c, max, nv) ==
            if Secret(nv) then NeverIndexing
            else if Volatile(nv.field.name) || 4 * EntryRoom(nv.field) > 3 * max then WithoutIndexing
            else WithIndexing
  {
    TokenNames(c, nv.field.name);
    hide Ascii, Sound;
  }

  /** The header is in one of the tables. */
  predicate Known(c: Codec, t: Table, f: Field)
  {
    f in t || f in c.dict.entries
  }

  lemma FoundExactly(c: Codec, t: Table, f: Field)
    requires Sound(c)
    ensures Search(c.dict, t, f, false).exact <==> Known(c, t, f)
  {
    if f in t {
      SearchDynamic(c.dict, t, f);
    } else {
      SearchStatic(c.dict, t, f);
    }
  }

  /** The first byte says which representation it is. */
  lemma KindOfFirstByte(h: H.Tables, rep: Rep)
    requires |h.nbits| == |h.code| == 257 && !rep.SizeUpdate?
    ensures var b := Wire(h, rep)[0];
            && (b >= 128 <==> rep.Indexed?)
            && (!rep.Indexed? ==> b / 64 == if rep.mode == WithIndexing then 1 else 0)
            && (!rep.Indexed? && rep.mode != WithIndexing ==> b / 16 == if rep.mode == NeverIndexing then 1 else 0)
  {
    match rep {
      case Indexed(idx) => IndexedByte(idx + 1);
      case IndexedName(idx, _, mode) => LiteralByte(mode, idx + 1);
      case NewName(_, _, _) =>
    }
    hide P.Encoded, StringWire;
  }

  /**
   * A secret header is a literal that is never indexed: its first byte begins with 0001, and no table
   * changes. Any other header is sent as an index if and only if a table has it; what is new is added to
   * the table if and only if its value may come back and it takes at most three quarters of the table.
   */
  lemma Chosen(c: Codec, t: Table, max: nat, nv: Nv)
    requires Sound(c)
    ensures var b := Wire(c.huff, RepOf(c, t, max, nv))[0];
            var lasting := !Volatile(nv.field.name) && 4 * EntryRoom(nv.field) <= 3 * max;
            && (b / 16 == 1 <==> Secret(nv))
            && (b / 128 == 1 <==> !Secret(nv) && Known(c, t, nv.field))
            && (b / 64 == 1 <==> !Secret(nv) && !Known(c, t, nv.field) && lasting)
            && TableAfter(c, t, max, nv) == if b / 64 == 1 then Add(t, nv.field, max) else t
  {
    ModeByName(c, max, nv);
    FoundExactly(c, t, nv.field);
    KindOfFirstByte(c.huff, RepOf(c, t, max, nv));
    hide Wire, Search, Secret, Volatile, ModeOf, Known, Add;
  }

  /** A header is referred to by its newest dynamic entry, or else by its first static one. */
  lemma ChosenIndex(c: Codec, t: Table, max: nat, nv: Nv)
    requires WellFormed(c.dict) && RepOf(c, t, max, nv).Indexed?
    ensures var idx := RepOf(c, t, max, nv).idx;
            if nv.field in t then First(t, nv.field, idx - STATIC_LENGTH) else First(c.dict.entries, nv.field, idx)
  {
    if nv.field in t {
      SearchDynamic(c.dict, t, nv.field);
    } else {
      SearchStatic(c.dict, t, nv.field);
    }
    hide Search, ModeOf, First;
  }

  /** The name of a literal is its first static entry, or else its newest dynamic one, or else spelled out. */
  predicate NamesFirst(entries: seq<Field>, t: Table, f: Field, rep: Rep)
  {
    match rep
    case NewName(name, value, _) => name == f.name && value == f.value && !Named(entries, name) && !Named(t, name)
    case IndexedName(idx, value, _) =>
      value == f.value && if Named(entries, f.name) then FirstWithName(entries, f.name, idx) else FirstWithName(t, f.name, idx - STATIC_LENGTH)
    case _ => false
  }

  lemma ChosenName(c: Codec, t: Table, max: nat, nv: Nv)
    requires WellFormed(c.dict) && !RepOf(c, t, max, nv).Indexed?
    ensures NamesFirst(c.dict.entries, t, nv.field, RepOf(c, t, max, nv))
  {
    hide *;
    var i := Unindexed(c, t, max, nv);
    FoundFirst(c.dict.entries, t, nv.field, i, RepOf(c, t, max, nv));
  }

  /** Where the name was found. */
  lemma Unindexed(c: Codec, t: Table, max: nat, nv: Nv) returns (i: int)
    requires WellFormed(c.dict) && !RepOf(c, t, max, nv).Indexed?
    ensures if Named(c.dict.entries, nv.field.name) then FirstWithName(c.dict.entries, nv.field.name, i)
            else if Named(t, nv.field.name) then FirstWithName(t, nv.field.name, i - STATIC_LENGTH)
            else i == -1
    ensures i >= -1
    ensures var rep := RepOf(c, t, max, nv);
            if i == -1 then rep.NewName? && rep.name == nv.field.name && rep.value == nv.field.value
            else rep.IndexedName? && rep.idx == i && rep.value == nv.field.value
  {
    hide Search, ModeOf, Named, FirstWithName, WellFormed;
    var nameOnly := ModeOf(c, max, nv) == NeverIndexing;
    i := Search(c.dict, t, nv.field, nameOnly).index;
    SearchName(c.dict, t, nv.field, nameOnly);
  }

  lemma FoundFirst(entries: seq<Field>, t: Table, f: Field, i: int, rep: Rep)
    requires if Named(entries, f.name) then FirstWithName(entries, f.name, i)
             else if Named(t, f.name) then FirstWithName(t, f.name, i - STATIC_LENGTH)
             else i == -1
    requires i >= -1
    requires if i == -1 then rep.NewName? && rep.name == f.name && rep.value == f.value
             else rep.IndexedName? && rep.idx == i && rep.value == f.value
    ensures NamesFirst(entries, t, f, rep)
  {
  }

  // ---- Size updates ----

  function ResizeAll(e: Encoder, sizes: seq<nat>): Encoder
    decreases |sizes|
  {
    if sizes == [] then e else ResizeAll(EncoderResize(e, sizes[0]), sizes[1..])
  }

  /** The smallest of some limits, none above `limit`. */
  function Least(sizes: seq<nat>, limit: nat): nat
  {
    if sizes == [] then limit else Min(sizes[0], Least(sizes[1..], limit))
  }

  lemma {:induction false} ResizedAll(e: Encoder, sizes: seq<nat>)
    requires sizes != []
    ensures var e' := ResizeAll(e, sizes);
            e'.notify && e'.limit == e.limit && e'.max == Min(sizes[|sizes| - 1], e.limit) && e'.minMax == Min(e.minMax, Least(sizes, e.limit))
    decreases |sizes|
  {
    hide Evict;
    if |sizes| > 1 {
      LeastBelow(sizes[1..], e.limit);
      ResizedAll(EncoderResize(e, sizes[0]), sizes[1..]);
    } else {
      assert sizes[1..] == [];
    }
  }

  /** The size updates for a final limit and the smallest one. */
  lemma AnnouncedFor(e: Encoder, low: nat, last: nat)
    requires e.notify && e.max == last && e.minMax == Min(UINT32_MAX, low) && low <= last <= UINT32_MAX
    ensures Announced(e) == if low < last then [SizeUpdate(low), SizeUpdate(last)] else [SizeUpdate(last)]
  {
  }

  /**
   * A block begins with size updates if and only if the limit was changed since the last block: with the
   * smallest limit since then, if that is not the final one, and with the final one.
   */
  lemma AnnouncedExactly(c: Codec, e: Encoder, nvs: seq<Nv>, sizes: seq<nat>)
    requires Sound(c) && e.limit <= UINT32_MAX && (!e.notify ==> e.minMax == UINT32_MAX)
    ensures var low, last := Least(sizes, e.limit), if sizes == [] then 0 else Min(sizes[|sizes| - 1], e.limit);
            Announced(ResizeAll(EncoderAfter(c, e, nvs), sizes)) ==
            if sizes == [] then [] else if low < last then [SizeUpdate(low), SizeUpdate(last)] else [SizeUpdate(last)]
  {
    var e1 := EncoderAfter(c, e, nvs);
    assert !e1.notify && e1.minMax == UINT32_MAX && e1.limit == e.limit;
    hide *;
    if sizes == [] {
      NoneAnnounced(e1);
    } else {
      ResizedAll(e1, sizes);
      LeastBelow(sizes, e.limit);
      LeastOf(sizes, e.limit);
      AnnouncedFor(ResizeAll(e1, sizes), Least(sizes, e.limit), Min(sizes[|sizes| - 1], e.limit));
    }
  }

  lemma NoneAnnounced(e: Encoder)
    requires !e.notify
    ensures Announced(ResizeAll(e, [])) == []
  {
  }

  lemma {:induction false} LeastOf(sizes: seq<nat>, limit: nat)
    requires sizes != []
    ensures Least(sizes, limit) <= Min(sizes[|sizes| - 1], limit) <= limit
  {
    if |sizes| > 1 {
      LeastOf(sizes[1..], limit);
    } else {
      assert sizes[1..] == [];
    }
  }

  lemma {:induction false} LeastBelow(sizes: seq<nat>, limit: nat)
    ensures Least(sizes, limit) <= limit
  {
    if sizes != [] {
      LeastBelow(sizes[1..], limit);
    }
  }
}
