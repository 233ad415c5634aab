/** What the HPACK encoder writes, as a function of its table: sections 6 and 4.2 of RFC 7541. */
module Encoding {
  import opened Bits
  import opened HeaderTable
  import H = Huffman
  import P = PrefixInt

  /** The constant tables both ends share. */
  datatype Codec = Codec(huff: H.Tables, dict: Dictionary)

  /** What table look-ups need. */
  ghost predicate Usable(c: Codec)
  {
    H.Shaped(c.huff) && |c.dict.entries| == STATIC_LENGTH
  }

  ghost predicate Sound(c: Codec)
  {
    H.WellFormed(c.huff) && WellFormed(c.dict) && Tokens(c.dict)
  }

  /** An input header: `nghttp2_nv` with its `NGHTTP2_NV_FLAG_NO_INDEX`. */
  datatype Nv = Nv(field: Field, noIndex: bool)

  datatype Mode = WithIndexing | WithoutIndexing | NeverIndexing

  /** One representation of section 6, indices counted from zero. */
  datatype Rep =
    | SizeUpdate(size: nat)
    | Indexed(idx: nat)
    | IndexedName(idx: nat, value: Bytes, mode: Mode)
    | NewName(name: Bytes, value: Bytes, mode: Mode)

  // ---- Wire format ----

  /** `pack_first_byte`. */
  function FirstByte(mode: Mode): Byte
  {
    match mode
    case WithIndexing => 0x40
    case WithoutIndexing => 0
    case NeverIndexing => 0x10
  }

  function IndexPrefix(mode: Mode): nat
  {
    if mode == WithIndexing then 6 else 4
  }

  /** Huffman coding is used when it is shorter. */
  predicate UsesHuffman(h: H.Tables, s: Bytes)
    requires |h.nbits| == |h.code| == 257
  {
    |H.Encoded(h, s)| < |s|
  }

  /** The bytes of a string literal after its length. */
  function StringBody(h: H.Tables, s: Bytes): (r: Bytes)
    requires |h.nbits| == |h.code| == 257
    ensures |r| <= |s|
  {
    if UsesHuffman(h, s) then H.Encoded(h, s) else s
  }

  /** `emit_string`, section 5.2. */
  function StringWire(h: H.Tables, s: Bytes): Bytes
    requires |h.nbits| == |h.code| == 257
  {
    P.Encoded(if UsesHuffman(h, s) then 0x80 else 0, |StringBody(h, s)|, 7) + StringBody(h, s)
  }

  /** A string literal in one of the two codings. */
  function Coded(h: H.Tables, s: Bytes, huffman: bool): Bytes
    requires |h.nbits| == |h.code| == 257
  {
    var body := if huffman then H.Encoded(h, s) else s;
    P.Encoded(if huffman then 0x80 else 0, |body|, 7) + body
  }

  /** The coding that is chosen is the shorter one; the plain one if both are equally long. */
  lemma StringShortest(h: H.Tables, s: Bytes)
    requires |h.nbits| == |h.code| == 257
    ensures StringWire(h, s) == Coded(h, s, true) || StringWire(h, s) == Coded(h, s, false)
    ensures |StringWire(h, s)| <= |Coded(h, s, true)| && |StringWire(h, s)| <= |Coded(h, s, false)|
    ensures |H.Encoded(h, s)| == |s| ==> StringWire(h, s) == Coded(h, s, false)
  {
    var n := |H.Encoded(h, s)|;
    if n < |s| {
      LengthGrows(n, |s|);
    } else {
      LengthGrows(|s|, n);
    }
    hide H.Encoded, P.Encoded;
  }

  /** A longer string has no shorter length. */
  lemma LengthGrows(m: nat, n: nat)
    requires m <= n
    ensures |P.Encoded(0x80, m, 7)| <= |P.Encoded(0, n, 7)| && |P.Encoded(0, m, 7)| <= |P.Encoded(0x80, n, 7)|
  {
    var k := P.Mask(7);
    if m >= k {
      P.TailGrows(m - k, n - k);
    }
  }

  /** `emit_table_size`, `emit_indexed_block`, `emit_indname_block`, `emit_newname_block`. */
  function Wire(h: H.Tables, rep: Rep): Bytes
    requires |h.nbits| == |h.code| == 257
  {
    match rep
    case SizeUpdate(size) => P.Encoded(0x20, size, 5)
    case Indexed(idx) => P.Encoded(0x80, idx + 1, 7)
    case IndexedName(idx, value, mode) =>
      P.Encoded(FirstByte(mode), idx + 1, IndexPrefix(mode)) + StringWire(h, value)
    case NewName(name, value, mode) => [FirstByte(mode)] + StringWire(h, name) + StringWire(h, value)
  }

  function Wires(h: H.Tables, reps: seq<Rep>): Bytes
    requires |h.nbits| == |h.code| == 257
  {
    if reps == [] then [] else Wire(h, reps[0]) + Wires(h, reps[1..])
  }

  lemma {:induction false} WiresConcat(h: H.Tables, a: seq<Rep>, b: seq<Rep>)
    requires |h.nbits| == |h.code| == 257
    ensures Wires(h, a + b) == Wires(h, a) + Wires(h, b)
  {
    if a == [] {
      assert a + b == b;
    } else {
      assert (a + b)[1..] == a[1..] + b;
      WiresConcat(h, a[1..], b);
      assert Wire(h, a[0]) + (Wires(h, a[1..]) + Wires(h, b)) == Wires(h, a) + Wires(h, b);
    }
  }

  // ---- The encoder's choices ----

  const TOKEN_PATH: int := 3
  const TOKEN_AGE: int := 20
  const TOKEN_AUTHORIZATION: int := 22
  const TOKEN_CONTENT_LENGTH: int := 27
  const TOKEN_COOKIE: int := 31
  const TOKEN_ETAG: int := 33
  const TOKEN_IF_MODIFIED_SINCE: int := 39
  const TOKEN_IF_NONE_MATCH: int := 40
  const TOKEN_LOCATION: int := 45
  const TOKEN_SET_COOKIE: int := 54

  function Ascii(s: string): (r: Bytes)
    requires forall i :: 0 <= i < |s| ==> s[i] as int < 128
    ensures |r| == |s|
  {
    seq(|s|, i requires 0 <= i < |s| => s[i] as int)
  }

  /** The names behind these tokens. */
  predicate Tokens(d: Dictionary)
  {
    && d.lookupToken(Ascii(":path")) == TOKEN_PATH
    && d.lookupToken(Ascii("age")) == TOKEN_AGE
    && d.lookupToken(Ascii("authorization")) == TOKEN_AUTHORIZATION
    && d.lookupToken(Ascii("content-length")) == TOKEN_CONTENT_LENGTH
    && d.lookupToken(Ascii("cookie")) == TOKEN_COOKIE
    && d.lookupToken(Ascii("etag")) == TOKEN_ETAG
    && d.lookupToken(Ascii("if-modified-since")) == TOKEN_IF_MODIFIED_SINCE
    && d.lookupToken(Ascii("if-none-match")) == TOKEN_IF_NONE_MATCH
    && d.lookupToken(Ascii("location")) == TOKEN_LOCATION
    && d.lookupToken(Ascii("set-cookie")) == TOKEN_SET_COOKIE
  }

  /** What must not get into a table: credentials, short cookies and what the caller flags. */
  predicate Secret(nv: Nv)
  {
    nv.noIndex || nv.field.name == Ascii("authorization") || (nv.field.name == Ascii("cookie") && |nv.field.value| < 20)
  }

  /** Names whose values seldom come back. */
  predicate Volatile(name: Bytes)
  {
    name == Ascii(":path") || name == Ascii("age") || name == Ascii("content-length") || name == Ascii("etag")
    || name == Ascii("if-modified-since") || name == Ascii("if-none-match") || name == Ascii("location")
    || name == Ascii("set-cookie")
  }

  /** `hd_deflate_decide_indexing`. */
  function DecideIndexing(max: nat, f: Field, token: int): Mode
  {
    if token == TOKEN_PATH || token == TOKEN_AGE || token == TOKEN_CONTENT_LENGTH || token == TOKEN_ETAG ||
       token == TOKEN_IF_MODIFIED_SINCE || token == TOKEN_IF_NONE_MATCH || token == TOKEN_LOCATION ||
       token == TOKEN_SET_COOKIE || EntryRoom(f) > max * 3 / 4
    then WithoutIndexing else WithIndexing
  }

  /** Credentials, short cookies and headers flagged by the caller are never indexed. */
  predicate Sensitive(nv: Nv, token: int)
  {
    token == TOKEN_AUTHORIZATION || (token == TOKEN_COOKIE && |nv.field.value| < 20) || nv.noIndex
  }

  function IndexingMode(max: nat, nv: Nv, token: int): Mode
  {
    if Sensitive(nv, token) then NeverIndexing else DecideIndexing(max, nv.field, token)
  }

  function ModeOf(c: Codec, max: nat, nv: Nv): Mode
  {
    IndexingMode(max, nv, c.dict.lookupToken(nv.field.name))
  }

  function RepOf(c: Codec, t: Table, max: nat, nv: Nv): Rep
    requires WellFormed(c.dict)
  {
    var mode := ModeOf(c, max, nv);
    var found := Search(c.dict, t, nv.field, mode == NeverIndexing);
    if found.exact then Indexed(found.index)
    else if found.index == -1 then NewName(nv.field.name, nv.field.value, mode)
    else IndexedName(found.index, nv.field.value, mode)
  }

  function TableAfter(c: Codec, t: Table, max: nat, nv: Nv): Table
    requires WellFormed(c.dict)
  {
    var mode := ModeOf(c, max, nv);
    if mode == WithIndexing && !Search(c.dict, t, nv.field, false).exact then Add(t, nv.field, max) else t
  }

  function RepsOf(c: Codec, t: Table, max: nat, nvs: seq<Nv>): (reps: seq<Rep>)
    requires WellFormed(c.dict)
    ensures |reps| == |nvs|
    decreases |nvs|
  {
    if nvs == [] then []
    else [RepOf(c, t, max, nvs[0])] + RepsOf(c, TableAfter(c, t, max, nvs[0]), max, nvs[1..])
  }

  function TableAfterAll(c: Codec, t: Table, max: nat, nvs: seq<Nv>): Table
    requires WellFormed(c.dict)
    decreases |nvs|
  {
    if nvs == [] then t else TableAfterAll(c, TableAfter(c, t, max, nvs[0]), max, nvs[1..])
  }

  // ---- The encoder over a connection ----

  /** The state of `nghttp2_hd_deflater`; `limit` is the size it never exceeds. */
  datatype Encoder = Encoder(table: Table, max: nat, limit: nat, minMax: nat, notify: bool)

  const DEFAULT_TABLE_SIZE: nat := 4096

  /** `nghttp2_hd_deflate_init2`. */
  function NewEncoder(limit: nat): Encoder
  {
    Encoder([], if limit < DEFAULT_TABLE_SIZE then limit else DEFAULT_TABLE_SIZE, limit, UINT32_MAX, limit < DEFAULT_TABLE_SIZE)
  }

  function Min(a: nat, b: nat): nat
  {
    if a < b then a else b
  }

  /** `nghttp2_hd_deflate_change_table_size`. */
  function EncoderResize(e: Encoder, settings: nat): Encoder
  {
    var next := Min(settings, e.limit);
    Encoder(Evict(e.table, next), next, e.limit, Min(e.minMax, next), true)
  }

  /** The size updates that open the next block: the smallest size in between, if smaller, and the final one. */
  function Announced(e: Encoder): seq<Rep>
  {
    if !e.notify then []
    else if e.max > e.minMax then [SizeUpdate(e.minMax), SizeUpdate(e.max)]
    else [SizeUpdate(e.max)]
  }

  /** All representations of a block. */
  function BlockReps(c: Codec, e: Encoder, nvs: seq<Nv>): seq<Rep>
    requires WellFormed(c.dict)
  {
    Announced(e) + RepsOf(c, e.table, e.max, nvs)
  }

  function BlockWire(c: Codec, e: Encoder, nvs: seq<Nv>): Bytes
    requires WellFormed(c.dict) && |c.huff.nbits| == |c.huff.code| == 257
  {
    Wires(c.huff, BlockReps(c, e, nvs))
  }

  function EncoderAfter(c: Codec, e: Encoder, nvs: seq<Nv>): Encoder
    requires WellFormed(c.dict)
  {
    Encoder(TableAfterAll(c, e.table, e.max, nvs), e.max, e.limit, if e.notify then UINT32_MAX else e.minMax, false)
  }
}
