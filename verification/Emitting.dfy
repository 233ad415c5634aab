/** The `emit_` functions of the encoder: representations written into the output buffers. */
module Emitting {
  import opened Bits
  import opened HeaderTable
  import opened Encoding
  import H = Huffman
  import P = PrefixInt
  import B = Bufs
  import E = HuffmanEncoder

  const SIZE_MAX: nat := 0xFFFF_FFFF_FFFF_FFFF

  /** Integers of 64 bits fit the sixteen bytes set aside for them. */
  lemma FitsScratch(n: nat, prefix: nat)
    requires 1 <= prefix <= 7 && n <= SIZE_MAX
    ensures P.EncodedLength(n, prefix) <= 11
  {
    if n >= P.Mask(prefix) {
      Pow2Words();
      assert Pow2(40) == 0x100_0000_0000;
      assert Pow2(48) == 0x1_0000_0000_0000;
      assert Pow2(56) == 0x100_0000_0000_0000;
      assert Pow2(64) == SIZE_MAX + 1;
      Pow2Mono(64, 70);
      P.TailLength(n - P.Mask(prefix), 10);
    }
  }

  /** The bytes were appended to the output; or there is less room than they need. */
  ghost predicate Appended(before: Bytes, room: nat, now: Bytes, left: nat, ok: bool, wire: Bytes)
  {
    (ok <==> |wire| <= room) && (ok ==> now == before + wire && left == room - |wire|)
  }

  lemma AppendedTwice(b0: Bytes, r0: nat, b1: Bytes, r1: nat, w1: Bytes, b2: Bytes, r2: nat, ok: bool, w2: Bytes)
    requires Appended(b0, r0, b1, r1, true, w1) && Appended(b1, r1, b2, r2, ok, w2)
    ensures Appended(b0, r0, b2, r2, ok, w1 + w2)
  {
    assert b0 + w1 + w2 == b0 + (w1 + w2);
  }

  lemma NotAppended(b0: Bytes, r0: nat, b1: Bytes, r1: nat, w1: Bytes, b2: Bytes, r2: nat, w2: Bytes)
    requires Appended(b0, r0, b1, r1, false, w1)
    ensures Appended(b0, r0, b2, r2, false, w1 + w2)
  {
  }

  /** An integer behind flag bits, put together in a scratch buffer. */
  method EmitInt(bufs: B.Bufs, first: Byte, n: nat, prefix: nat) returns (ok: bool)
    requires bufs.Valid() && 1 <= prefix <= 7 && n <= SIZE_MAX
    modifies bufs, bufs.data
    ensures bufs.Valid() && Appended(old(bufs.Contents()), old(bufs.Room()), bufs.Contents(), bufs.Room(), ok, P.Encoded(first, n, prefix))
  {
    hide P.Encoded;
    var blocklen := P.CountEncodedLength(n, prefix);
    FitsScratch(n, prefix);
    if 16 < blocklen {
      return false;
    }
    var sb := new Byte[16](_ => 0);
    sb[0] := first;
    blocklen := P.EncodeLength(sb, n, prefix);
    ok := bufs.Add(sb[..blocklen]);
  }

  /** `emit_table_size` */
  method EmitTableSize(bufs: B.Bufs, ghost h: H.Tables, size: nat) returns (ok: bool)
    requires bufs.Valid() && |h.nbits| == |h.code| == 257 && size <= SIZE_MAX
    modifies bufs, bufs.data
    ensures bufs.Valid() && Appended(old(bufs.Contents()), old(bufs.Room()), bufs.Contents(), bufs.Room(), ok, Wire(h, SizeUpdate(size)))
  {
    ok := EmitInt(bufs, 0x20, size, 5);
  }

  /** `emit_indexed_block` */
  method EmitIndexedBlock(bufs: B.Bufs, ghost h: H.Tables, idx: nat) returns (ok: bool)
    requires bufs.Valid() && |h.nbits| == |h.code| == 257 && idx < SIZE_MAX
    modifies bufs, bufs.data
    ensures bufs.Valid() && Appended(old(bufs.Contents()), old(bufs.Room()), bufs.Contents(), bufs.Room(), ok, Wire(h, Indexed(idx)))
  {
    ok := EmitInt(bufs, 0x80, idx + 1, 7);
  }

  /** `emit_string` */
  method EmitString(bufs: B.Bufs, h: H.Tables, s: Bytes) returns (ok: bool)
    requires bufs.Valid() && |h.nbits| == |h.code| == 257 && H.PrefixCode(h) && |s| <= SIZE_MAX
    modifies bufs, bufs.data
    ensures bufs.Valid() && Appended(old(bufs.Contents()), old(bufs.Room()), bufs.Contents(), bufs.Room(), ok, StringWire(h, s))
  {
    hide P.Encoded, H.Encoded, B.Bufs.Valid, B.Bufs.Contents, B.Bufs.Room;
    var enclen := H.HuffEncodeCount(h, s);
    var huffman := false;
    if enclen < |s| {
      huffman := true;
    } else {
      enclen := |s|;
    }
    ok := EmitInt(bufs, if huffman then 0x80 else 0, enclen, 7);
    if !ok {
      return false;
    }
    if huffman {
      ok := E.HuffEncode(bufs, h, s);
    } else {
      ok := bufs.Add(s);
    }
  }

  /** `emit_indname_block` */
  method EmitIndnameBlock(bufs: B.Bufs, h: H.Tables, idx: nat, value: Bytes, mode: Mode) returns (ok: bool)
    requires bufs.Valid() && |h.nbits| == |h.code| == 257 && H.PrefixCode(h) && idx < SIZE_MAX && |value| <= SIZE_MAX
    modifies bufs, bufs.data
    ensures bufs.Valid() && Appended(old(bufs.Contents()), old(bufs.Room()), bufs.Contents(), bufs.Room(), ok, Wire(h, IndexedName(idx, value, mode)))
  {
    hide P.Encoded, StringWire, B.Bufs.Valid, B.Bufs.Contents, B.Bufs.Room;
    ok := EmitInt(bufs, FirstByte(mode), idx + 1, IndexPrefix(mode));
    if ok {
      ok := EmitString(bufs, h, value);
    }
  }

  /** `emit_newname_block` */
  method EmitNewnameBlock(bufs: B.Bufs, h: H.Tables, name: Bytes, value: Bytes, mode: Mode) returns (ok: bool)
    requires bufs.Valid() && |h.nbits| == |h.code| == 257 && H.PrefixCode(h) && |name| <= SIZE_MAX && |value| <= SIZE_MAX
    modifies bufs, bufs.data
    ensures bufs.Valid() && Appended(old(bufs.Contents()), old(bufs.Room()), bufs.Contents(), bufs.Room(), ok, Wire(h, NewName(name, value, mode)))
  {
    hide StringWire, B.Bufs.Valid, B.Bufs.Contents, B.Bufs.Room;
    ok := bufs.AddB(FirstByte(mode));
    if ok {
      ok := EmitString(bufs, h, name);
    }
    if ok {
      ok := EmitString(bufs, h, value);
    }
  }

  /** A literal, its name at an index or, for index -1, spelled out. */
  function LiteralRep(idx: int, f: Field, mode: Mode): Rep
    requires idx >= -1
  {
    if idx == -1 then NewName(f.name, f.value, mode) else IndexedName(idx, f.value, mode)
  }

  /** How `deflate_nv` ends. */
  method EmitLiteral(bufs: B.Bufs, h: H.Tables, idx: int, f: Field, mode: Mode) returns (ok: bool)
    requires bufs.Valid() && |h.nbits| == |h.code| == 257 && H.PrefixCode(h)
    requires -1 <= idx < SIZE_MAX && |f.name| <= SIZE_MAX && |f.value| <= SIZE_MAX
    modifies bufs, bufs.data
    ensures bufs.Valid() && Appended(old(bufs.Contents()), old(bufs.Room()), bufs.Contents(), bufs.Room(), ok, Wire(h, LiteralRep(idx, f, mode)))
  {
    if idx == -1 {
      ok := EmitNewnameBlock(bufs, h, f.name, f.value, mode);
    } else {
      ok := EmitIndnameBlock(bufs, h, idx, f.value, mode);
    }
  }
}
