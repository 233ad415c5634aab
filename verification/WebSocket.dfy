/** WebSocket frames (sections 5.2 and 5.3 of RFC 6455). */
module WebSocket {
  import opened Bits
  import opened ByteOrder

  // ---- 64-bit numbers, in halves ----

  /** `ntohs`, `ntohl`: the number whose bytes in memory, as they came from the network, load as `n`. */
  function Ntoh(n: nat, k: nat): nat
  {
    FromNet(Store(n, k))
  }

  /** `htons`, `htonl` */
  function Hton(n: nat, k: nat): nat
  {
    Load(ToNet(n, k))
  }

  function Ntoh64(net: nat): nat
  {
    var low, high := Ntoh(LowBits(net, 32), 4), Ntoh(Shr(net, 32), 4);
    Or(Shl(low, 32), high)
  }

  function Hton64(host: nat): nat
  {
    var low, high := Hton(LowBits(host, 32), 4), Hton(LowBits(Shr(host, 32), 32), 4);
    Or(Shl(low, 32), high)
  }

  /** Eight bytes from the network, swapped in halves, are the number they denote. */
  lemma Ntoh64Loads(s: Bytes)
    requires |s| == 8
    ensures Ntoh64(Load(s)) == FromNet(s)
  {
    hide Shl, Load, Store, FromNet, Or, Pow2, LowBits, Shr;
    var a, b := s[..4], s[4..];
    assert s == a + b;
    LoadConcat(a, b);
    LoadBound(a);
    ShlShr(Load(b), Load(a), 32);
    StoreLoad(a);
    StoreLoad(b);
    FromNetConcat(a, b);
    FromNetBound(b);
    OrDisjoint(FromNet(a), FromNet(b), 32);
  }

  /** A 64-bit number swapped in halves lies in memory as it goes over the network. */
  lemma Hton64Stores(n: nat)
    requires n < Pow2(64)
    ensures Store(Hton64(n), 8) == ToNet(n, 8)
  {
    hide Shl, Load, Store, ToNet, Or, Pow2, LowBits, Shr;
    var low, high := LowBits(n, 32), Shr(n, 32);
    ShrBound32(n);
    LowOfSmall(high, 32);
    ToNetConcat(n, 4, 4);
    ToNetLow(n, 4);
    LoadConcat(ToNet(high, 4), ToNet(low, 4));
    LoadBound(ToNet(high, 4));
    OrDisjoint(Load(ToNet(low, 4)), Load(ToNet(high, 4)), 32);
    StoreLoad(ToNet(n, 8));
  }

  lemma ShrBound32(n: nat)
    requires n < Pow2(64)
    ensures Shr(n, 32) < Pow2(32)
  {
    ShrShl(n, Pow2(32), 32);
    Pow2Shl(32, 32);
  }

  lemma Hton16Stores(n: nat)
    ensures Store(Hton(n, 2), 2) == ToNet(n, 2)
  {
    StoreLoad(ToNet(n, 2));
  }

  lemma NtohLoads(s: Bytes)
    ensures Ntoh(Load(s), |s|) == FromNet(s)
  {
    StoreLoad(s);
  }

  // ---- Masking ----

  const MASK_LEN: nat := 4

  /** Masking by definition: byte `i` with byte `i % 4` of the key. */
  function Masked(s: Bytes, key: Bytes): (r: Bytes)
    requires |key| == MASK_LEN
    ensures |r| == |s| && forall i :: 0 <= i < |s| ==> r[i] == XorByte(s[i], key[i % 4])
  {
    seq(|s|, i requires 0 <= i < |s| => XorByte(s[i], key[i % 4]))
  }

  /** Masking is its own inverse. */
  lemma MaskedTwice(s: Bytes, key: Bytes)
    requires |key| == MASK_LEN
    ensures Masked(Masked(s, key), key) == s
  {
    forall i | 0 <= i < |s|
      ensures Masked(Masked(s, key), key)[i] == s[i]
    {
      XorTwice(s[i], key[i % 4]);
    }
  }

  /** The key twice, in one word. */
  function MaskKey64(key: Bytes): nat
  {
    Or(Shl(Load(key), 32), Load(key))
  }

  lemma KeyTwice(key: Bytes)
    requires |key| == MASK_LEN
    ensures MaskKey64(key) == Load(key + key)
  {
    LoadConcat(key, key);
    LoadBound(key);
    OrDisjoint(Load(key), Load(key), 32);
  }

  /** Eight bytes masked at once. */
  lemma MaskedWord(s: Bytes, key: Bytes)
    requires |key| == MASK_LEN && |s| == 8
    ensures Store(Xor(Load(s), MaskKey64(key)), 8) == XorBytes(s, key + key)
  {
    KeyTwice(key);
    XorWords(s, key + key);
    StoreLoad(XorBytes(s, key + key));
  }

  /** Byte `at + i` of an array before and after. */
  ghost predicate MaskedUpTo(now: Bytes, was: Bytes, key: Bytes, at: nat, done: nat)
    requires |key| == MASK_LEN
  {
    && |now| == |was| && at + done <= |now|
    && forall i :: 0 <= i < |now| ==> now[i] == if at <= i < at + done then XorByte(was[i], key[(i - at) % 4]) else was[i]
  }

  lemma MaskedUpToWord(now: Bytes, next: Bytes, was: Bytes, key: Bytes, at: nat, n: nat)
    requires |key| == MASK_LEN && at + 8 * n + 8 <= |now| && MaskedUpTo(now, was, key, at, 8 * n)
    requires next == now[..at + 8 * n] + XorBytes(now[at + 8 * n..at + 8 * n + 8], key + key) + now[at + 8 * n + 8..]
    ensures MaskedUpTo(next, was, key, at, 8 * n + 8)
  {
    hide XorByte;
    var from := at + 8 * n;
    assert |next| == |now|;
    forall i | 0 <= i < |now| && !(from <= i < from + 8)
      ensures next[i] == now[i]
    {
    }
    forall i | from <= i < from + 8
      ensures next[i] == XorByte(was[i], key[(i - at) % 4])
    {
      var j := i - from;
      assert next[i] == XorByte(now[i], (key + key)[j]);
      assert (i - at) % 4 == j % 4;
      assert (key + key)[j] == key[j % 4];
    }
  }

  /** `mask`: eight bytes at a time as far as they go, then one at a time. */
  method Mask(data: array<Byte>, at: nat, len: nat, key: Bytes)
    requires at + len <= data.Length && |key| == MASK_LEN
    modifies data
    ensures data[..] == old(data[..at]) + Masked(old(data[at..at + len]), key) + old(data[at + len..])
  {
    hide Xor, XorByte, XorBytes, MaskKey64;
    ghost var was := data[..];
    var n := len / 8;
    var key64 := MaskKey64(key);
    var i: nat := 0;
    while i < n
      invariant i <= n && MaskedUpTo(data[..], was, key, at, 8 * i)
    {
      ghost var now := data[..];
      MaskWord(data, at + 8 * i, key64, key);
      MaskedUpToWord(now, data[..], was, key, at, i);
      i := i + 1;
    }
    i := n * 8;
    while i < len
      invariant i <= len && MaskedUpTo(data[..], was, key, at, i)
    {
      assert data[..][at + i] == data[at + i];
      data[at + i] := XorByte(data[at + i], key[i % MASK_LEN]);
      i := i + 1;
    }
    MaskedAll(data[..], was, key, at, len);
  }

  lemma MaskedAll(now: Bytes, was: Bytes, key: Bytes, at: nat, len: nat)
    requires |key| == MASK_LEN && MaskedUpTo(now, was, key, at, len)
    ensures now == was[..at] + Masked(was[at..at + len], key) + was[at + len..]
  {
    hide XorByte;
  }

  lemma Placed(now: Bytes, was: Bytes, from: nat, word: Bytes)
    requires |now| == |was| && from + |word| <= |was|
    requires forall i :: 0 <= i < |now| ==> now[i] == if from <= i < from + |word| then word[i - from] else was[i]
    ensures now == was[..from] + word + was[from + |word|..]
  {
  }

  /** `((uint64_t *) data)[i] ^= mask_key64` */
  method MaskWord(data: array<Byte>, from: nat, key64: nat, ghost key: Bytes)
    requires from + 8 <= data.Length && |key| == MASK_LEN && key64 == MaskKey64(key)
    modifies data
    ensures data[..] == old(data[..from]) + XorBytes(old(data[from..from + 8]), key + key) + old(data[from + 8..])
  {
    hide Xor, Load, Store, MaskKey64, XorBytes;
    ghost var was := data[..];
    assert was[from..from + 8] == data[from..from + 8];
    MaskedWord(data[from..from + 8], key);
    var word := Store(Xor(Load(data[from..from + 8]), key64), 8);
    var k: nat := 0;
    while k < 8
      invariant k <= 8
      invariant forall i :: 0 <= i < data.Length ==> data[i] == if from <= i < from + k then word[i - from] else was[i]
    {
      data[from + k] := word[k];
      k := k + 1;
    }
    Placed(data[..], was, from, word);
  }

  // ---- Frames ----

  const HEADER_LEN: nat := 2

  /** `FrameHeader`: the fields of the first two bytes. */
  datatype Header = Header(opcode: nat, rsv3: nat, rsv2: nat, rsv1: nat, fin: nat, length: nat, mask: nat)
  {
    predicate Valid()
    {
      opcode < 16 && rsv3 < 2 && rsv2 < 2 && rsv1 < 2 && fin < 2 && length < 128 && mask < 2
    }
  }

  /** The bit fields in memory, the first declared in the lowest bits. */
  function Pack(h: Header): (s: Bytes)
    requires h.Valid()
    ensures |s| == HEADER_LEN
  {
    [h.opcode + 16 * h.rsv3 + 32 * h.rsv2 + 64 * h.rsv1 + 128 * h.fin, h.length + 128 * h.mask]
  }

  function Unpack(a: Byte, b: Byte): (h: Header)
    ensures h.Valid()
  {
    Header(a % 16, a / 16 % 2, a / 32 % 2, a / 64 % 2, a / 128, b % 128, b / 128)
  }

  lemma UnpackPack(h: Header)
    requires h.Valid()
    ensures Unpack(Pack(h)[0], Pack(h)[1]) == h
  {
    var a := Pack(h)[0];
    assert a / 128 == h.fin;
    assert a / 16 == h.rsv3 + 2 * h.rsv2 + 4 * h.rsv1 + 8 * h.fin;
    assert a / 32 == h.rsv2 + 2 * h.rsv1 + 4 * h.fin && a / 64 == h.rsv1 + 2 * h.fin;
  }

  datatype Key = Clear | Key(bytes: Bytes)

  /** The length of a payload with the bit that says whether it is masked, in the fewest bytes. */
  function LengthField(mask: nat, n: nat): Bytes
    requires mask < 2
  {
    if n < 126 then [n + 128 * mask]
    else if n < 65536 then [126 + 128 * mask] + ToNet(n, 2)
    else [127 + 128 * mask] + ToNet(n, 8)
  }

  /** The key, if there is one, and the payload, masked if so. */
  function KeyAndData(key: Key, payload: Bytes): Bytes
    requires key.Key? ==> |key.bytes| == MASK_LEN
  {
    if key.Key? then key.bytes + Masked(payload, key.bytes) else payload
  }

  /** A frame as the standard defines it. */
  function Wire(fin: nat, opcode: nat, key: Key, payload: Bytes): Bytes
    requires fin < 2 && opcode < 16 && (key.Key? ==> |key.bytes| == MASK_LEN)
  {
    [128 * fin + opcode] + LengthField(if key.Key? then 1 else 0, |payload|)
    + KeyAndData(key, payload)
  }

  // ---- What decoding finds ----

  /** How many bytes of length follow the header, and where the key and the payload are. */
  function Extended(length: nat): nat
  {
    if length == 126 then 2 else if length == 127 then 8 else 0
  }

  /** Enough of the frame to know its size. */
  predicate HasLength(msg: Bytes)
  {
    |msg| >= HEADER_LEN && |msg| >= HEADER_LEN + Extended(msg[1] % 128)
  }

  function PayloadLength(msg: Bytes): nat
    requires HasLength(msg)
  {
    var n := msg[1] % 128;
    if n == 126 then FromNet(msg[2..4]) else if n == 127 then FromNet(msg[2..10]) else n
  }

  function HeaderLength(msg: Bytes): nat
    requires HasLength(msg)
  {
    HEADER_LEN + Extended(msg[1] % 128) + if msg[1] / 128 == 1 then MASK_LEN else 0
  }

  /** The whole frame has been received. */
  predicate Complete(msg: Bytes)
  {
    HasLength(msg) && HeaderLength(msg) + PayloadLength(msg) <= |msg|
  }

  function KeyOf(msg: Bytes): (key: Bytes)
    requires Complete(msg) && msg[1] / 128 == 1
    ensures |key| == MASK_LEN
  {
    msg[HeaderLength(msg) - MASK_LEN..HeaderLength(msg)]
  }

  /** The payload, unmasked. */
  function Payload(msg: Bytes): Bytes
    requires Complete(msg)
  {
    var s := msg[HeaderLength(msg)..HeaderLength(msg) + PayloadLength(msg)];
    if msg[1] / 128 == 1 then Masked(s, KeyOf(msg)) else s
  }

  lemma LengthFieldRead(fin: nat, opcode: nat, mask: nat, n: nat, rest: Bytes)
    requires fin < 2 && opcode < 16 && mask < 2 && n < Pow2(64)
    ensures var f := LengthField(mask, n);
            var msg := [128 * fin + opcode] + f + rest;
            && HasLength(msg) && PayloadLength(msg) == n
            && msg[1] / 128 == mask && HEADER_LEN + Extended(msg[1] % 128) == 1 + |f|
  {
    hide Pow2, ToNet, FromNet;
    var f := LengthField(mask, n);
    var msg := [128 * fin + opcode] + f + rest;
    assert msg[1] == f[0];
    if n >= 65536 {
      assert msg[2..10] == ToNet(n, 8);
      FromToNet(n, 8);
    } else if n >= 126 {
      assert msg[2..4] == ToNet(n, 2);
      Pow2Words();
      FromToNet(n, 2);
    }
  }

  /** No header that announces the same length of payload has a shorter length field, as section 5.2 demands. */
  lemma LengthFieldShortest(msg: Bytes, mask: nat)
    requires mask < 2 && HasLength(msg)
    ensures |LengthField(mask, PayloadLength(msg))| <= 1 + Extended(msg[1] % 128)
  {
    if msg[1] % 128 == 126 {
      FromNetBound(msg[2..4]);
      Pow2Words();
    }
    hide Pow2, FromNet;
  }

  /** The payload is found behind the first `n` bytes. */
  lemma PayloadRead(msg: Bytes, n: nat, key: Key, payload: Bytes, rest: Bytes)
    requires key.Key? ==> |key.bytes| == MASK_LEN
    requires n <= |msg| && msg[n..] == KeyAndData(key, payload) + rest
    requires HasLength(msg) && PayloadLength(msg) == |payload| && HEADER_LEN + Extended(msg[1] % 128) == n
    requires msg[1] / 128 == if key.Key? then 1 else 0
    ensures Complete(msg) && Payload(msg) == payload && HeaderLength(msg) + PayloadLength(msg) + |rest| == |msg|
  {
    hide HasLength, PayloadLength, Extended, Masked;
    var hl, t := HeaderLength(msg), msg[n..];
    assert msg[hl..hl + |payload|] == t[hl - n..hl - n + |payload|];
    if key.Key? {
      assert t[4..4 + |payload|] == Masked(payload, key.bytes);
      assert KeyOf(msg) == t[..4] == key.bytes;
      MaskedTwice(payload, key.bytes);
    } else {
      assert t[..|payload|] == payload;
    }
  }

  /** Decoding inverts encoding, for every length, masked or not, with anything after the frame. */
  lemma DecodesWire(fin: nat, opcode: nat, key: Key, payload: Bytes, rest: Bytes)
    requires fin < 2 && opcode < 16 && (key.Key? ==> |key.bytes| == MASK_LEN) && |payload| < Pow2(64)
    ensures var msg := Wire(fin, opcode, key, payload) + rest;
            && Complete(msg) && Payload(msg) == payload
            && HeaderLength(msg) + PayloadLength(msg) + |rest| == |msg|
            && Unpack(msg[0], msg[1]).fin == fin && Unpack(msg[0], msg[1]).opcode == opcode
            && Unpack(msg[0], msg[1]).mask == (if key.Key? then 1 else 0)
            && Unpack(msg[0], msg[1]).rsv1 == Unpack(msg[0], msg[1]).rsv2 == Unpack(msg[0], msg[1]).rsv3 == 0
  {
    var mask := if key.Key? then 1 else 0;
    var f := LengthField(mask, |payload|);
    var msg := Wire(fin, opcode, key, payload) + rest;
    LengthFieldRead(fin, opcode, mask, |payload|, KeyAndData(key, payload) + rest);
    assert Wire(fin, opcode, key, payload) == [128 * fin + opcode] + f + KeyAndData(key, payload);
    hide KeyAndData, LengthField, HasLength, PayloadLength, HeaderLength, Extended, Complete, Payload, Pow2, Masked, Wire;
    assert msg == [128 * fin + opcode] + f + (KeyAndData(key, payload) + rest);
    assert msg[1 + |f|..] == KeyAndData(key, payload) + rest;
    PayloadRead(msg, 1 + |f|, key, payload, rest);
    FirstByte(fin, opcode);
    assert msg[0] == 128 * fin + opcode;
  }

  lemma FirstByte(fin: nat, opcode: nat)
    requires fin < 2 && opcode < 16
    ensures var b := 128 * fin + opcode;
            b % 16 == opcode && b / 16 % 2 == 0 && b / 32 % 2 == 0 && b / 64 % 2 == 0 && b / 128 == fin
  {
  }
}
