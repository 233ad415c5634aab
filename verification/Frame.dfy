/** `Buffer`, and `Frame::encode` and `Frame::decode` on it. */
module Frames {
  import opened Bits
  import opened ByteOrder
  import opened WebSocket

  /** A buffer of fixed size; a zero follows what it holds. */
  class Buffer {
    const size: nat
    const bytes: array<Byte>
    var length: nat

    ghost predicate Valid()
      reads this
    {
      bytes.Length == size + 1 && length <= size
    }

    ghost function Contents(): Bytes
      reads this, bytes
      requires Valid()
    {
      bytes[..length]
    }

    constructor (size: nat)
      ensures Valid() && fresh(bytes) && this.size == size && Contents() == []
    {
      this.size, length := size, 0;
      bytes := new Byte[size + 1](_ => 0);
    }

    method Append(s: Bytes)
      requires Valid() && length + |s| <= size
      modifies this, bytes
      ensures Valid() && Contents() == old(Contents()) + s
    {
      var i: nat := 0;
      while i < |s|
        invariant i <= |s| && length == old(length)
        invariant bytes[..length + i] == old(Contents()) + s[..i]
      {
        bytes[length + i] := s[i];
        i := i + 1;
      }
      length := length + |s|;
      bytes[length] := 0;
    }
  }

  /** The header of a frame that is not masked, with the length of its payload. */
  method FrameHeader(n: nat, opcode: Byte, finish: Byte) returns (s: Bytes)
    requires n < Pow2(64)
    ensures s == [128 * (finish % 2) + opcode % 16] + LengthField(0, n)
  {
    hide Pow2, ToNet, Hton, Hton64, Store;
    var header := Header(opcode % 16, 0, 0, 0, finish % 2, 0, 0);
    if n < 126 {
      header := header.(length := n);
      s := Pack(header);
    } else if n < 65536 {
      header := header.(length := 126);
      Hton16Stores(n);
      s := Pack(header) + Store(Hton(n, 2), 2);
    } else {
      header := header.(length := 127);
      Hton64Stores(n);
      s := Pack(header) + Store(Hton64(n), 8);
    }
  }

  /** `Frame::encode`: the frame the standard defines is appended. */
  method Encode(to: Buffer, data: Buffer, opcode: Byte, finish: Byte)
    requires to.Valid() && data.Valid() && to != data && to.bytes != data.bytes
    requires data.length < Pow2(64) && to.length + |Wire(finish % 2, opcode % 16, Clear, data.Contents())| <= to.size
    modifies to, to.bytes
    ensures to.Valid()
    ensures to.Contents() == old(to.Contents()) + Wire(finish % 2, opcode % 16, Clear, data.Contents())
  {
    hide Pow2, LengthField;
    ghost var was, s := to.Contents(), data.Contents();
    var header := FrameHeader(data.length, opcode, finish);
    to.Append(header);
    if data.length > 0 {
      to.Append(data.bytes[..data.length]);
    }
    assert was + header + s == was + (header + s);
  }

  lemma Parts(s: Bytes, tail: Bytes, at: nat, n: nat)
    requires at + n <= |s|
    ensures s + tail == s[..at] + s[at..at + n] + s[at + n..] + tail
  {
  }

  method MaskAt(msg: array<Byte>, at: nat, n: nat, key: Bytes, ghost s: Bytes, ghost tail: Bytes)
    requires msg[..] == s + tail && at + n <= |s| && |key| == MASK_LEN
    modifies msg
    ensures msg[..] == s[..at] + Masked(s[at..at + n], key) + s[at + n..] + tail
  {
    hide Masked;
    assert msg[..at] == s[..at] && msg[at..at + n] == s[at..at + n] && msg[at + n..] == s[at + n..] + tail;
    Mask(msg, at, n, key);
  }

  class Frame {
    var header: Header
    var maskKey: Bytes
    var headerLength: nat
    var payloadLength: nat
    var payload: nat // where it begins in the buffer

    constructor ()
    {
      header, maskKey, headerLength, payloadLength, payload := Header(0, 0, 0, 0, 0, 0, 0), [0, 0, 0, 0], 0, 0, 0;
    }

    /** `fetch_header` */
    method FetchHeader(msg: array<Byte>)
      requires msg.Length >= HEADER_LEN
      modifies this`header
      ensures header == Unpack(msg[0], msg[1])
    {
      header := Unpack(msg[0], msg[1]);
    }

    /** Where the key or the payload begins, and the length of the payload. */
    method FetchLength(msg: array<Byte>, ghost s: Bytes) returns (at: nat, n: nat)
      requires |s| <= msg.Length && s == msg[..|s|] && HasLength(s) && header == Unpack(s[0], s[1])
      modifies this`header
      ensures header == old(header) && at == HEADER_LEN + Extended(s[1] % 128) && n == PayloadLength(s)
    {
      hide FromNet, Load, Store, Ntoh64, Ntoh;
      header := header.(length := msg[1] % 128);
      n, at := header.length, HEADER_LEN;
      if header.length == 126 {
        assert msg[2..4] == s[2..4];
        NtohLoads(s[2..4]);
        n := Ntoh(Load(msg[2..4]), 2);
        at := at + 2;
      } else if header.length == 127 {
        assert msg[2..10] == s[2..10];
        Ntoh64Loads(s[2..10]);
        n := Ntoh64(Load(msg[2..10]));
        at := at + 8;
      }
    }

    /** `fetch_payload`: the payload is unmasked where it is. */
    method FetchPayload(msg: array<Byte>, ghost s: Bytes)
      requires |s| <= msg.Length && s == msg[..|s|] && Complete(s) && header == Unpack(s[0], s[1])
      modifies this, msg
      ensures header == old(header) && headerLength == payload == HeaderLength(s) && payloadLength == PayloadLength(s)
      ensures header.mask == 1 ==> maskKey == KeyOf(s)
      ensures msg[..] == s[..payload] + Payload(s) + s[payload + payloadLength..] + old(msg[|s|..])
    {
      hide Masked, PayloadLength;
      ghost var tail := msg[|s|..];
      assert msg[..] == s + tail;
      var at, n := FetchLength(msg, s);
      if header.mask == 1 {
        maskKey := msg[at..at + MASK_LEN];
        at := at + MASK_LEN;
        assert maskKey == KeyOf(s);
        if n > 0 {
          MaskAt(msg, at, n, maskKey, s, tail);
        } else {
          assert Masked(s[at..at], maskKey) == [];
          Parts(s, tail, at, 0);
        }
      } else {
        Parts(s, tail, at, n);
      }
      headerLength, payload, payloadLength := at, at, n;
    }

    /** `Frame::decode` on a buffer that begins with a whole frame. */
    method Decode(buffer: Buffer)
      requires buffer.Valid() && Complete(buffer.Contents())
      modifies this, buffer.bytes
      ensures buffer.Valid()
      ensures var s := old(buffer.Contents());
              && header == Unpack(s[0], s[1])
              && headerLength == payload == HeaderLength(s) && payloadLength == PayloadLength(s)
              && buffer.Contents() == s[..payload] + Payload(s) + s[payload + payloadLength..]
    {
      hide Masked, PayloadLength;
      ghost var s := buffer.Contents();
      FetchHeader(buffer.bytes);
      FetchPayload(buffer.bytes, s);
    }
  }
}
