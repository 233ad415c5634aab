/** The Huffman bit packer, which or-s codes into the output byte by byte. */
module HuffmanEncoder {
  import opened Bits
  import opened Bufs
  import H = Huffman

  /** Bits already in the byte at the write position, above `rem` free ones. */
  ghost predicate Holding(bufs: Bufs, held: BitString, rem: nat)
    requires bufs.Valid()
    reads bufs, bufs.data
  {
    |held| + rem == 8 && rem >= 1 && bufs.Avail() > 0 && bufs.Held() == Shl(Val(held), rem)
  }

  /** How many bytes `n` bits touch. */
  function Touched(n: nat): nat
  {
    (n + 7) / 8
  }

  /** The last `h` bits. */
  function Last(bits: BitString, h: nat): (r: BitString)
    requires h <= |bits|
    ensures |r| == h
  {
    bits[|bits| - h..]
  }

  /**
   * What the chain gained since it held `before` and had `room` left: exactly the bits of `goal`
   * but for the last `h`.
   */
  ghost predicate Sent(bufs: Bufs, before: Bytes, room: nat, goal: BitString, h: nat)
    requires bufs.Valid()
    reads bufs, bufs.data
  {
    && before <= bufs.Contents()
    && bufs.Room() + |bufs.Contents()| == room + |before|
    && h <= |goal|
    && BytesToBits(bufs.Contents()[|before|..]) == goal[..|goal| - h]
  }

  /** All of `goal` is out, its last bits perhaps only held. */
  ghost predicate Done(bufs: Bufs, before: Bytes, room: nat, goal: BitString, rem: nat)
    requires bufs.Valid()
    reads bufs, bufs.data
  {
    && 1 <= rem <= 8
    && Sent(bufs, before, room, goal, 8 - rem)
    && (rem < 8 ==> Holding(bufs, Last(goal, 8 - rem), rem))
  }

  /** Sending the next byte of the goal. */
  lemma SendByte(out: Bytes, goal: BitString, h: nat, b: Byte)
    requires 8 <= h <= |goal| && BytesToBits(out) == goal[..|goal| - h]
    requires b == Val(Last(goal, h)[..8])
    ensures BytesToBits(out + [b]) == goal[..|goal| - (h - 8)]
    ensures Last(goal, h)[8..] == Last(goal, h - 8)
  {
    hide BitsOf, Val, Pow2;
    var first := Last(goal, h)[..8];
    BitsOfVal(first);
    BytesToBitsConcat(out, [b]);
    assert BytesToBits([b]) == BitsOf(b, 8) + BytesToBits([]);
    assert goal[..|goal| - (h - 8)] == goal[..|goal| - h] + first;
  }

  /** The chain once one more byte of the goal is in it; `was` are the contents before it. */
  lemma SentByte(bufs: Bufs, before: Bytes, room: nat, goal: BitString, h: nat, was: Bytes, b: Byte)
    requires bufs.Valid() && before <= was && 8 <= h <= |goal|
    requires BytesToBits(was[|before|..]) == goal[..|goal| - h] && b == Val(Last(goal, h)[..8])
    requires bufs.Contents() == was + [b] && bufs.Room() + 1 + |was| == room + |before|
    ensures Sent(bufs, before, room, goal, h - 8) && Last(goal, h)[8..] == Last(goal, h - 8)
  {
    SendByte(was[|before|..], goal, h, b);
    assert bufs.Contents()[|before|..] == was[|before|..] + [b];
  }

  lemma Fits(bits: BitString, rem: nat)
    requires |bits| + rem <= 8
    ensures Shl(Val(bits), rem) < 256
  {
    ShlBound(Val(bits), |bits|, rem);
    Pow2Mono(|bits| + rem, 8);
    Pow2Small();
  }

  /** Or-ing more bits below the held ones. */
  lemma OrHeld(held: BitString, rem: nat, part: BitString)
    requires |part| <= rem <= 8 && |held| + rem == 8
    ensures Shl(Val(held), rem) < 256 && Shl(Val(part), rem - |part|) < 256
    ensures OrByte(Shl(Val(held), rem), Shl(Val(part), rem - |part|)) == Shl(Val(held + part), rem - |part|)
  {
    Fits(held, rem);
    Fits(part, rem - |part|);
    ValConcat(held, part);
    OrParts(Val(held), Val(part), Val(held + part), rem, |part|);
  }

  lemma OrParts(h: nat, p: nat, v: nat, rem: nat, n: nat)
    requires n <= rem && p < Pow2(n) && v == Shl(h, n) + p
    ensures Or(Shl(h, rem), Shl(p, rem - n)) == Shl(v, rem - n)
  {
    ShlBound(p, n, rem - n);
    OrDisjoint(h, Shl(p, rem - n), rem);
    ShlAdd(Shl(h, n), p, rem - n);
    ShlTwice(h, rem - n, n);
  }

  /** `code` carries the bits `rest` above `s` zero bits; anything higher is leftovers of emitted bits. */
  ghost predicate Carries(code: nat, rest: BitString, s: nat)
  {
    LowBits(code, |rest| + s) == Shl(Val(rest), s)
  }

  /** Aligning by a shift in 32 bits keeps the bits that are still to be emitted. */
  lemma CarriesShift(code: nat, rest: BitString, s: nat)
    requires Carries(code, rest, 0) && |rest| + s <= 32
    ensures Carries(Shl(code, s) % 0x1_0000_0000, rest, s)
  {
    LowWord(Shl(code, s));
    LowOfLow(Shl(code, s), |rest| + s, 32);
    LowOfShl(code, |rest|, s);
  }

  lemma {:induction false} LowOfShl(a: nat, n: nat, s: nat)
    ensures LowBits(Shl(a, s), n + s) == Shl(LowBits(a, n), s)
  {
    if s != 0 {
      LowOfShl(a, n, s - 1);
    }
  }

  lemma TopByte(code: nat, k: nat, h: nat, l: nat)
    requires LowBits(code, k + 8) == Shl(h, k) + l && h < Pow2(8) && l < Pow2(k)
    ensures LowBits(Shr(code, k), 8) == h && LowBits(code, k) == l
  {
    LowOfShr(code, k, 8);
    LowOfLow(code, k, k + 8);
    ShlShr(h, l, k);
  }

  /** The top byte of what is left, and the code after it is gone. */
  lemma CarriesByte(code: nat, rest: BitString, s: nat, k: nat)
    requires Carries(code, rest, s) && |rest| + s == k + 8 && |rest| >= 8
    ensures ToByte(Shr(code, k)) == Val(rest[..8])
    ensures Carries(code, rest[8..], s)
  {
    var hi, lo := rest[..8], rest[8..];
    assert rest == hi + lo;
    ValConcat(hi, lo);
    ShlAdd(Shl(Val(hi), |lo|), Val(lo), s);
    ShlTwice(Val(hi), s, |lo|);
    ShlBound(Val(lo), |lo|, s);
    TopByte(code, k, Val(hi), Shl(Val(lo), s));
  }

  lemma CarriesLast(code: nat, rest: BitString, s: nat)
    requires Carries(code, rest, s) && |rest| + s == 8
    ensures ToByte(code) == Shl(Val(rest), s)
  {
  }

  /** A step of the slow path: if more than `8 * j` of the `8 * m - s` bits are left, the top byte goes through the chain. */
  method SlowByte(bufs: Bufs, nbits0: nat, code: nat, j: nat, ghost m: nat, ghost s: nat,
                  ghost before: Bytes, ghost room: nat, ghost goal: BitString)
    returns (ok: bool, nbits: nat, ghost m': nat)
    requires bufs.Valid() && Sent(bufs, before, room, goal, nbits0)
    requires Carries(code, Last(goal, nbits0), s)
    requires 1 <= j && m <= j + 1 && 1 <= nbits0 && nbits0 + s == 8 * m && s < 8
    modifies bufs, bufs.data
    ensures bufs.Valid()
    ensures ok ==> Sent(bufs, before, room, goal, nbits) && Carries(code, Last(goal, nbits), s)
    ensures ok ==> m' <= j && 1 <= nbits && nbits + s == 8 * m'
    ensures !ok ==> 8 * room < |goal|
  {
    ok, nbits, m' := true, nbits0, m;
    if nbits > 8 * j {
      ghost var was := bufs.Contents();
      CarriesByte(code, Last(goal, nbits), s, 8 * j);
      ok := bufs.AddB(ToByte(Shr(code, 8 * j)));
      if ok {
        SentByte(bufs, before, room, goal, nbits, was, ToByte(Shr(code, 8 * j)));
        nbits, m' := nbits - 8, m - 1;
      }
    }
  }

  /** A step of the fast path: the current chunk is known to have room. */
  method FastByte(bufs: Bufs, nbits0: nat, code: nat, j: nat, ghost m: nat, ghost s: nat,
                  ghost before: Bytes, ghost room: nat, ghost goal: BitString)
    returns (nbits: nat, ghost m': nat)
    requires bufs.Valid() && Sent(bufs, before, room, goal, nbits0)
    requires Carries(code, Last(goal, nbits0), s)
    requires 1 <= j && m <= j + 1 && 1 <= nbits0 && nbits0 + s == 8 * m && s < 8 && m <= bufs.Avail()
    modifies bufs, bufs.data
    ensures bufs.Valid()
    ensures Sent(bufs, before, room, goal, nbits) && Carries(code, Last(goal, nbits), s)
    ensures m' <= j && 1 <= nbits && nbits + s == 8 * m' && m' <= bufs.Avail()
  {
    nbits, m' := nbits0, m;
    if nbits > 8 * j {
      ghost var was := bufs.Contents();
      CarriesByte(code, Last(goal, nbits), s, 8 * j);
      bufs.FastAddB(ToByte(Shr(code, 8 * j)));
      SentByte(bufs, before, room, goal, nbits, was, ToByte(Shr(code, 8 * j)));
      nbits, m' := nbits - 8, m - 1;
    }
  }

  /** The end of the slow path: a full byte, or a held one. */
  method SlowLast(bufs: Bufs, nbits: nat, code: nat, ghost s: nat,
                  ghost before: Bytes, ghost room: nat, ghost goal: BitString)
    returns (ok: bool, avail: nat, rem: nat)
    requires bufs.Valid() && Sent(bufs, before, room, goal, nbits)
    requires Carries(code, Last(goal, nbits), s) && nbits + s == 8 && 1 <= nbits
    modifies bufs, bufs.data
    ensures bufs.Valid()
    ensures ok <==> |goal| <= 8 * room
    ensures ok ==> Done(bufs, before, room, goal, rem) && avail == bufs.Avail()
  {
    CarriesLast(code, Last(goal, nbits), s);
    if nbits == 8 {
      ghost var was := bufs.Contents();
      assert Last(goal, 8)[..8] == Last(goal, 8);
      ok := bufs.AddB(ToByte(code));
      if ok {
        SentByte(bufs, before, room, goal, 8, was, ToByte(code));
      }
      return ok, bufs.Avail(), 8;
    }
    ok := bufs.AddBHold(ToByte(code));
    return ok, bufs.Avail(), 8 - nbits;
  }

  /** The end of the fast path. */
  method FastLast(bufs: Bufs, nbits: nat, code: nat, ghost s: nat,
                  ghost before: Bytes, ghost room: nat, ghost goal: BitString)
    returns (avail: nat, rem: nat)
    requires bufs.Valid() && Sent(bufs, before, room, goal, nbits) && bufs.Avail() > 0
    requires Carries(code, Last(goal, nbits), s) && nbits + s == 8 && 1 <= nbits
    modifies bufs, bufs.data
    ensures bufs.Valid()
    ensures Done(bufs, before, room, goal, rem) && avail == bufs.Avail()
  {
    CarriesLast(code, Last(goal, nbits), s);
    if nbits == 8 {
      ghost var was := bufs.Contents();
      assert Last(goal, 8)[..8] == Last(goal, 8);
      bufs.FastAddB(ToByte(code));
      SentByte(bufs, before, room, goal, 8, was, ToByte(code));
      return bufs.Avail(), 8;
    }
    bufs.FastAddBHold(ToByte(code));
    return bufs.Avail(), 8 - nbits;
  }

  /** The slow path of `huff_encode_sym`. */
  method SlowPath(bufs: Bufs, nbits0: nat, code: nat, ghost m0: nat, ghost s: nat,
                  ghost before: Bytes, ghost room: nat, ghost goal: BitString)
    returns (ok: bool, avail: nat, rem: nat)
    requires bufs.Valid() && Sent(bufs, before, room, goal, nbits0)
    requires Carries(code, Last(goal, nbits0), s) && nbits0 + s == 8 * m0 && s < 8 && 1 <= nbits0 && m0 <= 4
    modifies bufs, bufs.data
    ensures bufs.Valid()
    ensures ok <==> |goal| <= 8 * room
    ensures ok ==> Done(bufs, before, room, goal, rem) && avail == bufs.Avail()
  {
    var nbits: nat;
    ghost var m: nat;
    avail, rem := 0, 0;
    ok, nbits, m := SlowByte(bufs, nbits0, code, 3, m0, s, before, room, goal);
    if !ok {
      return;
    }
    ok, nbits, m := SlowByte(bufs, nbits, code, 2, m, s, before, room, goal);
    if !ok {
      return;
    }
    ok, nbits, m := SlowByte(bufs, nbits, code, 1, m, s, before, room, goal);
    if !ok {
      return;
    }
    assert m == 1;
    ok, avail, rem := SlowLast(bufs, nbits, code, s, before, room, goal);
  }

  /** The fast path of `huff_encode_sym`. */
  method FastPath(bufs: Bufs, nbits0: nat, code: nat, ghost m0: nat, ghost s: nat,
                  ghost before: Bytes, ghost room: nat, ghost goal: BitString)
    returns (avail: nat, rem: nat)
    requires bufs.Valid() && Sent(bufs, before, room, goal, nbits0) && m0 <= bufs.Avail()
    requires Carries(code, Last(goal, nbits0), s) && nbits0 + s == 8 * m0 && s < 8 && 1 <= nbits0 && m0 <= 4
    modifies bufs, bufs.data
    ensures bufs.Valid()
    ensures Done(bufs, before, room, goal, rem) && avail == bufs.Avail()
  {
    var nbits, m := FastByte(bufs, nbits0, code, 3, m0, s, before, room, goal);
    nbits, m := FastByte(bufs, nbits, code, 2, m, s, before, room, goal);
    nbits, m := FastByte(bufs, nbits, code, 1, m, s, before, room, goal);
    assert m == 1;
    avail, rem := FastLast(bufs, nbits, code, s, before, room, goal);
  }

  /** Extending the goal by a code leaves that code, and what was left before, still to be sent. */
  lemma Extend(bufs: Bufs, before: Bytes, room: nat, done: BitString, h: nat, cb: BitString)
    requires bufs.Valid() && Sent(bufs, before, room, done, h)
    ensures Sent(bufs, before, room, done + cb, h + |cb|)
    ensures Last(done + cb, h + |cb|) == Last(done, h) + cb
  {
    assert (done + cb)[..|done + cb| - (h + |cb|)] == done[..|done| - h];
  }

  /** Or-s a code that fits into the held byte with room to spare. */
  method AddToHeld(bufs: Bufs, rem: nat, code: nat, nbits: nat, ghost cb: BitString,
                   ghost before: Bytes, ghost room: nat, ghost done: BitString)
    requires bufs.Valid() && 1 <= rem <= 8 && Sent(bufs, before, room, done, 8 - rem)
    requires Holding(bufs, Last(done, 8 - rem), rem) && rem > nbits == |cb| > 0 && code == Val(cb)
    modifies bufs, bufs.data
    ensures bufs.Valid() && bufs.Avail() == old(bufs.Avail())
    ensures Done(bufs, before, room, done + cb, rem - nbits) && |done + cb| <= 8 * room
  {
    Extend(bufs, before, room, done, 8 - rem, cb);
    OrHeld(Last(done, 8 - rem), rem, cb);
    Pow2Small();
    LowOfSmall(Shl(code, rem - nbits), 8);
    bufs.FastOrbHold(ToByte(Shl(code, rem - nbits)));
  }

  /** Or-ing the leading bits of a code into the held byte fills it; the rest of the code is still to come. */
  lemma HeldByte(held: BitString, rem: nat, cb: BitString)
    requires |held| + rem == 8 && 1 <= rem <= |cb|
    ensures Shl(Val(held), rem) < 256
    ensures OrByte(Shl(Val(held), rem), ToByte(Shr(Val(cb), |cb| - rem))) == Val(held + cb[..rem])
    ensures Carries(Val(cb), cb[rem..], 0)
  {
    var part, rest := cb[..rem], cb[rem..];
    assert cb == part + rest;
    ValSplit(part, rest);
    OrHeld(held, rem, part);
    Pow2Small();
    LowOfSmall(Val(part), 8);
  }

  /** Or-s the leading bits of a code into the held byte, which is then full. */
  method FillHeld(bufs: Bufs, rem: nat, code: nat, nbits: nat, ghost cb: BitString,
                  ghost before: Bytes, ghost room: nat, ghost done: BitString)
    requires bufs.Valid() && 1 <= rem <= 8 && Sent(bufs, before, room, done, 8 - rem)
    requires Holding(bufs, Last(done, 8 - rem), rem) && rem <= nbits == |cb| && code == Val(cb)
    modifies bufs, bufs.data
    ensures bufs.Valid() && bufs.Avail() == old(bufs.Avail()) - 1
    ensures Sent(bufs, before, room, done + cb, nbits - rem) && Carries(code, Last(done + cb, nbits - rem), 0)
  {
    ghost var held, part, rest := Last(done, 8 - rem), cb[..rem], cb[rem..];
    ghost var was := bufs.Contents();
    HeldByte(held, rem, cb);
    Extend(bufs, before, room, done, 8 - rem, cb);
    assert Last(done + cb, 8 - rem + nbits)[..8] == held + part;
    bufs.FastOrb(ToByte(Shr(code, nbits - rem)));
    SentByte(bufs, before, room, done + cb, 8 - rem + nbits, was, Val(held + part));
    assert Last(done + cb, nbits - rem) == rest;
  }

  /** Aligns the remaining bits of a code to a byte boundary. */
  method Align(code0: nat, nbits: nat, ghost rest: BitString) returns (code: nat, ghost s: nat, ghost m: nat)
    requires Carries(code0, rest, 0) && nbits == |rest| <= 30
    ensures Carries(code, rest, s) && nbits + s == 8 * m && m == Touched(nbits) && s < 8
  {
    if nbits % 8 == 0 {
      return code0, 0, nbits / 8;
    }
    CarriesShift(code0, rest, 8 - nbits % 8);
    return Shl(code0, 8 - nbits % 8) % 0x1_0000_0000, 8 - nbits % 8, nbits / 8 + 1;
  }

  /** The part of `huff_encode_sym` after the held byte is full. */
  method EncodeRest(bufs: Bufs, avail0: nat, nbits: nat, code0: nat,
                    ghost before: Bytes, ghost room: nat, ghost goal: BitString)
    returns (ok: bool, avail: nat, rem: nat)
    requires bufs.Valid() && 1 <= nbits <= 30 && Sent(bufs, before, room, goal, nbits)
    requires Carries(code0, Last(goal, nbits), 0) && avail0 == bufs.Avail()
    modifies bufs, bufs.data
    ensures bufs.Valid()
    ensures ok <==> |goal| <= 8 * room
    ensures ok ==> Done(bufs, before, room, goal, rem) && avail == bufs.Avail()
  {
    var code, s, m := Align(code0, nbits, Last(goal, nbits));
    if avail0 < (nbits + 7) / 8 {
      ok, avail, rem := SlowPath(bufs, nbits, code, m, s, before, room, goal);
    } else {
      ok := true;
      avail, rem := FastPath(bufs, nbits, code, m, s, before, room, goal);
    }
  }

  /**
   * `huff_encode_sym`: adds the code of `sym` to the held bits, through the unchecked writes when
   * the current chunk has room for all of it and byte by byte through the chain otherwise. Fails
   * exactly when the bits touch more bytes than the chain has room for.
   */
  method HuffEncodeSym(bufs: Bufs, avail0: nat, rem0: nat, t: H.Tables, sym: nat,
                       ghost before: Bytes, ghost room: nat, ghost done: BitString)
    returns (ok: bool, avail: nat, rem: nat)
    requires bufs.Valid() && 1 <= rem0 <= 8 && Sent(bufs, before, room, done, 8 - rem0)
    requires Holding(bufs, Last(done, 8 - rem0), rem0) && avail0 == bufs.Avail()
    requires |t.nbits| == |t.code| == 257 && H.PrefixCode(t) && sym <= H.EOS
    modifies bufs, bufs.data
    ensures bufs.Valid()
    ensures ok <==> |done + H.CodeOf(t, sym)| <= 8 * room
    ensures ok ==> Done(bufs, before, room, done + H.CodeOf(t, sym), rem) && avail == bufs.Avail()
  {
    var nbits, code := t.nbits[sym], t.code[sym];
    ghost var cb := H.CodeOf(t, sym);
    ValBitsOf(code, nbits);
    if rem0 > nbits {
      AddToHeld(bufs, rem0, code, nbits, cb, before, room, done);
      return true, avail0, rem0 - nbits;
    }
    FillHeld(bufs, rem0, code, nbits, cb, before, room, done);
    if rem0 == nbits {
      return true, avail0 - 1, 8;
    }
    ok, avail, rem := EncodeRest(bufs, avail0 - 1, nbits - rem0, code, before, room, done + cb);
  }

  /** Starts a new output byte when the last one is full. */
  method StartByte(bufs: Bufs, avail0: nat, rem: nat, ghost before: Bytes, ghost room: nat, ghost done: BitString)
    returns (ok: bool, avail: nat)
    requires bufs.Valid() && Done(bufs, before, room, done, rem) && avail0 == bufs.Avail()
    modifies bufs, bufs.data
    ensures bufs.Valid()
    ensures ok ==> Sent(bufs, before, room, done, 8 - rem) && Holding(bufs, Last(done, 8 - rem), rem) && avail == bufs.Avail()
    ensures !ok ==> |done| == 8 * room
  {
    ok, avail := true, avail0;
    if rem == 8 {
      ShlOne(8);
      if avail > 0 {
        bufs.FastAddBHold(0);
      } else {
        ok := bufs.AddBHold(0);
        avail := bufs.Avail();
      }
    }
  }

  /** One symbol: from the codes written so far to one more. */
  method EncodeOne(bufs: Bufs, avail0: nat, rem0: nat, t: H.Tables, sym: nat,
                   ghost before: Bytes, ghost room: nat, ghost done: BitString)
    returns (ok: bool, avail: nat, rem: nat)
    requires bufs.Valid() && Done(bufs, before, room, done, rem0) && avail0 == bufs.Avail()
    requires |t.nbits| == |t.code| == 257 && H.PrefixCode(t) && sym <= H.EOS
    modifies bufs, bufs.data
    ensures bufs.Valid()
    ensures ok <==> |done + H.CodeOf(t, sym)| <= 8 * room
    ensures ok ==> Done(bufs, before, room, done + H.CodeOf(t, sym), rem) && avail == bufs.Avail()
  {
    rem := rem0;
    ok, avail := StartByte(bufs, avail0, rem, before, room, done);
    if ok {
      ok, avail, rem := HuffEncodeSym(bufs, avail, rem, t, sym, before, room, done);
    }
  }

  /** Fills the last byte with a prefix of the end-of-string code. */
  method PadEos(bufs: Bufs, rem: nat, t: H.Tables, ghost before: Bytes, ghost room: nat, ghost done: BitString)
    requires bufs.Valid() && Done(bufs, before, room, done, rem) && rem < 8
    requires |t.nbits| == |t.code| == 257 && H.PrefixCode(t)
    modifies bufs, bufs.data
    ensures bufs.Valid() && Sent(bufs, before, room, done + Ones(rem), 0)
  {
    ghost var was, held := bufs.Contents(), Last(done, 8 - rem);
    ValBitsOf(t.code[H.EOS], t.nbits[H.EOS]);
    HeldByte(held, rem, H.CodeOf(t, H.EOS));
    assert H.CodeOf(t, H.EOS)[..rem] == Ones(rem);
    Extend(bufs, before, room, done, 8 - rem, Ones(rem));
    assert (held + Ones(rem))[..8] == held + Ones(rem);
    bufs.FastOrb(ToByte(Shr(t.code[H.EOS], t.nbits[H.EOS] - rem)));
    SentByte(bufs, before, room, done + Ones(rem), 8, was, Val(held + Ones(rem)));
  }

  /** `nghttp2_hd_huff_encode`: fails exactly when the encoded string does not fit the chain. */
  method HuffEncode(bufs: Bufs, t: H.Tables, src: Bytes) returns (ok: bool)
    requires bufs.Valid() && |t.nbits| == |t.code| == 257 && H.PrefixCode(t)
    modifies bufs, bufs.data
    ensures bufs.Valid()
    ensures ok <==> |H.Encoded(t, src)| <= old(bufs.Room())
    ensures ok ==> bufs.Contents() == old(bufs.Contents()) + H.Encoded(t, src)
    ensures ok ==> bufs.Room() == old(bufs.Room()) - |H.Encoded(t, src)|
  {
    ghost var before, room := bufs.Contents(), bufs.Room();
    EncodedBytes(t, src);
    var rem: nat := 8;
    var avail := bufs.Avail();
    for i := 0 to |src|
      invariant bufs.Valid() && avail == bufs.Avail()
      invariant Done(bufs, before, room, H.Codes(t, src[..i]), rem)
    {
      CodesStep(t, src, i);
      ok, avail, rem := EncodeOne(bufs, avail, rem, t, src[i], before, room, H.Codes(t, src[..i]));
      if !ok {
        return false;
      }
    }
    assert src[..|src|] == src;
    if rem < 8 {
      PadEos(bufs, rem, t, before, room, H.Codes(t, src));
      AllSent(bufs, before, room, t, src, rem);
    } else {
      assert H.Codes(t, src) + Ones(0) == H.Codes(t, src);
      AllSent(bufs, before, room, t, src, 0);
    }
    return true;
  }

  lemma PadUnique(n: nat, k: nat)
    requires k < 8 && (n + k) % 8 == 0
    ensures k == H.PadLength(n)
  {
  }

  lemma EncodedBytes(t: H.Tables, src: Bytes)
    requires |t.nbits| == |t.code| == 257
    ensures |H.Encoded(t, src)| == Touched(|H.Codes(t, src)|)
  {
  }

  /** Sending all codes and the padding has sent the encoded string. */
  lemma AllSent(bufs: Bufs, before: Bytes, room: nat, t: H.Tables, src: Bytes, k: nat)
    requires bufs.Valid() && |t.nbits| == |t.code| == 257 && k < 8
    requires Sent(bufs, before, room, H.Codes(t, src) + Ones(k), 0)
    ensures bufs.Contents() == before + H.Encoded(t, src) && bufs.Room() == room - |H.Encoded(t, src)|
  {
    var out, goal := bufs.Contents()[|before|..], H.Codes(t, src) + Ones(k);
    assert BytesToBits(out) == goal[..|goal| - 0] == goal;
    PadUnique(|H.Codes(t, src)|, k);
    H.PackOfBytes(out);
    assert bufs.Contents() == before + out;
  }

  /** One more symbol extends the codes, and never past those of the whole string. */
  lemma CodesStep(t: H.Tables, src: Bytes, i: nat)
    requires |t.nbits| == |t.code| == 257 && i < |src|
    ensures H.Codes(t, src[..i + 1]) == H.Codes(t, src[..i]) + H.CodeOf(t, src[i])
    ensures |H.Codes(t, src[..i + 1])| <= |H.Codes(t, src)|
  {
    H.CodesAppend(t, src[..i], src[i]);
    assert src[..i + 1] == src[..i] + [src[i]];
    CodesPrefix(t, src, i + 1);
  }

  lemma {:induction false} CodesPrefix(t: H.Tables, src: Bytes, i: nat)
    requires |t.nbits| == |t.code| == 257 && i <= |src|
    ensures |H.Codes(t, src[..i])| <= |H.Codes(t, src)|
  {
    if i > 0 {
      assert src[..i][1..] == src[1..][..i - 1];
      CodesPrefix(t, src[1..], i - 1);
    }
  }
}
