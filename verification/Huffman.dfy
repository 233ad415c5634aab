/** The Huffman code of HPACK, section 5.2 of RFC 7541: a bit-level code and its nibble-wise decoder. */
module Huffman {
  import opened Bits

  /**
   * One cell of the decode table: the state after four more bits, the symbol completed on the way
   * (at most one, since codes have at least five bits), and whether the input may end there.
   */
  datatype Cell = Fail | Go(state: nat, sym: seq<Byte>, accepted: bool)

  /** `huff_sym_table` and `huff_decode_table`; `node` names the trie node each decoder state stands for. */
  datatype Tables = Tables(nbits: seq<nat>, code: seq<nat>, decode: seq<seq<Cell>>, node: seq<BitString>)

  const EOS: nat := 256

  /** The shape that makes table look-ups safe. */
  ghost predicate Shaped(t: Tables)
  {
    && |t.nbits| == |t.code| == 257
    && |t.decode| > 0
    && (forall st :: 0 <= st < |t.decode| ==> |t.decode[st]| == 16)
    && (forall st, i :: 0 <= st < |t.decode| && 0 <= i < 16 ==> CellShaped(t, t.decode[st][i]))
  }

  ghost predicate CellShaped(t: Tables, c: Cell)
  {
    c.Go? ==> c.state < |t.decode| && |c.sym| <= 1
  }

  function CodeOf(t: Tables, s: nat): (bits: BitString)
    requires s < |t.nbits| == |t.code|
    ensures |bits| == t.nbits[s]
  {
    BitsOf(t.code[s], t.nbits[s])
  }

  /** Codes of 5 to 30 bits, none a prefix of another, with the all-ones code for end of string. */
  ghost predicate PrefixCode(t: Tables)
    requires |t.nbits| == |t.code| == 257
  {
    && (forall s :: 0 <= s <= EOS ==> 5 <= t.nbits[s] <= 30 && t.code[s] < Pow2(t.nbits[s]))
    && (forall s, s' :: 0 <= s <= EOS && 0 <= s' <= EOS && CodeOf(t, s) <= CodeOf(t, s') ==> s == s')
    && CodeOf(t, EOS) == Ones(30)
  }

  // ---- Walking the code trie bit by bit ----

  ghost predicate IsLeaf(t: Tables, n: BitString, s: nat)
    requires |t.nbits| == |t.code| == 257
  {
    s <= EOS && CodeOf(t, s) == n
  }

  ghost predicate IsInner(t: Tables, n: BitString)
    requires |t.nbits| == |t.code| == 257
  {
    exists s :: 0 <= s <= EOS && n < CodeOf(t, s)
  }

  /** What a bit string is in the code trie. */
  datatype Node = Leaf(sym: nat) | Inner | Outside

  ghost function NodeAt(t: Tables, n: BitString): Node
    requires |t.nbits| == |t.code| == 257
  {
    if exists s: nat :: IsLeaf(t, n, s) then
      var s: nat :| IsLeaf(t, n, s);
      Leaf(s)
    else if IsInner(t, n) then Inner
    else Outside
  }

  datatype Walked = Dead | At(node: BitString, out: Bytes)

  function Before(out: Bytes, w: Walked): Walked
  {
    if w.At? then w.(out := out + w.out) else w
  }

  /** Follows `bits` down the trie from node `n`; a completed symbol returns to the root. */
  ghost function Walk(t: Tables, n: BitString, bits: BitString): Walked
    requires |t.nbits| == |t.code| == 257
    decreases |bits|
  {
    if bits == [] then At(n, [])
    else
      match NodeAt(t, n + [bits[0]])
      case Leaf(s) => if s < EOS then Before([s], Walk(t, [], bits[1..])) else Dead
      case Inner => Walk(t, n + [bits[0]], bits[1..])
      case Outside => Dead
  }

  /** The nodes where an encoded string may end: fewer than eight bits of the end-of-string code. */
  predicate IsPadding(n: BitString)
  {
    |n| < 8 && n == Ones(|n|)
  }

  /** Every cell of the decode table is a four-bit walk. */
  ghost predicate TableWalks(t: Tables)
    requires Shaped(t)
  {
    && |t.node| == |t.decode|
    && t.node[0] == []
    && forall st, i :: 0 <= st < |t.decode| && 0 <= i < 16 ==>
         CellWalks(t, t.decode[st][i], Walk(t, t.node[st], BitsOf(i, 4)))
  }

  ghost predicate CellWalks(t: Tables, c: Cell, w: Walked)
    requires Shaped(t) && |t.node| == |t.decode| && CellShaped(t, c)
  {
    match w
    case Dead => c.Fail?
    case At(n, out) => c.Go? && t.node[c.state] == n && c.sym == out && c.accepted == IsPadding(n)
  }

  ghost predicate WellFormed(t: Tables)
  {
    Shaped(t) && PrefixCode(t) && TableWalks(t)
  }

  // ---- Encoding ----

  /** The codes of a string, one after the other. */
  function Codes(t: Tables, src: Bytes): BitString
    requires |t.nbits| == |t.code| == 257
  {
    if src == [] then [] else CodeOf(t, src[0]) + Codes(t, src[1..])
  }

  lemma {:induction false} CodesAppend(t: Tables, src: Bytes, b: Byte)
    requires |t.nbits| == |t.code| == 257
    ensures Codes(t, src + [b]) == Codes(t, src) + CodeOf(t, b)
  {
    if src == [] {
      assert (src + [b])[1..] == [];
      assert Codes(t, []) == [];
    } else {
      assert (src + [b])[1..] == src[1..] + [b];
      CodesAppend(t, src[1..], b);
      assert Codes(t, src) == CodeOf(t, src[0]) + Codes(t, src[1..]);
    }
  }

  /** How many one-bits fill the last byte. */
  function PadLength(n: nat): (k: nat)
    ensures k < 8 && (n + k) % 8 == 0
  {
    (8 - n % 8) % 8
  }

  function Padded(bits: BitString): (r: BitString)
    ensures |r| % 8 == 0
  {
    bits + Ones(PadLength(|bits|))
  }

  /** Groups of eight bits as bytes; bits of an unfinished last byte are left out. */
  function Pack(bits: BitString): (bs: Bytes)
    ensures |bs| == |bits| / 8
    decreases |bits|
  {
    if |bits| < 8 then [] else
      Pow2Small();
      [Val(bits[..8])] + Pack(bits[8..])
  }

  /** The encoded form of a string: its codes, padded with a prefix of the end-of-string code. */
  function Encoded(t: Tables, src: Bytes): Bytes
    requires |t.nbits| == |t.code| == 257
  {
    Pack(Padded(Codes(t, src)))
  }

  lemma {:induction false} PackBits(bits: BitString)
    requires |bits| % 8 == 0
    ensures BytesToBits(Pack(bits)) == bits
    decreases |bits|
  {
    if |bits| >= 8 {
      PackBits(bits[8..]);
      BitsOfVal(bits[..8]);
      assert Pack(bits)[1..] == Pack(bits[8..]);
      assert bits == bits[..8] + bits[8..];
    }
  }

  lemma {:induction false} PackOfBytes(bs: Bytes)
    ensures Pack(BytesToBits(bs)) == bs
  {
    if bs != [] {
      var bits := BytesToBits(bs);
      Pow2Small();
      ValBitsOf(bs[0], 8);
      assert bits[..8] == BitsOf(bs[0], 8) && bits[8..] == BytesToBits(bs[1..]);
      PackOfBytes(bs[1..]);
    }
  }

  // ---- Table-driven decoding ----

  datatype Decoded = Rejected | Decoded(state: nat, accept: bool, out: Bytes)

  /** One input byte: two look-ups, each emitting at most one symbol. */
  function DecodeByte(t: Tables, state: nat, b: Byte): (d: Decoded)
    requires Shaped(t) && state < |t.decode|
    ensures d.Decoded? ==> d.state < |t.decode| && |d.out| <= 2
  {
    var c := t.decode[state][b / 16];
    assert CellShaped(t, c);
    if c.Fail? then Rejected else
      var c' := t.decode[c.state][b % 16];
      assert CellShaped(t, c');
      if c'.Fail? then Rejected else Decoded(c'.state, c'.accepted, c.sym + c'.sym)
  }

  /** A run of input bytes; an empty run keeps the context. */
  function Decode(t: Tables, state: nat, accept: bool, bs: Bytes): (d: Decoded)
    requires Shaped(t) && state < |t.decode|
    ensures d.Decoded? ==> d.state < |t.decode| && |d.out| <= 2 * |bs|
    decreases |bs|
  {
    if bs == [] then Decoded(state, accept, [])
    else
      var d := DecodeByte(t, state, bs[0]);
      if d.Rejected? then d else
        AfterOutput(d.out, Decode(t, d.state, d.accept, bs[1..]))
  }

  function AfterOutput(out: Bytes, d: Decoded): Decoded
  {
    if d.Rejected? then d else d.(out := out + d.out)
  }

  /** `nghttp2_hd_huff_decode` on `src[from..to]`, writing to `buf` from position `last0` on. */
  method HuffDecode(t: Tables, state0: nat, accept0: bool, buf: array<Byte>, last0: nat,
                    src: Bytes, from: nat, to: nat, final: bool)
    returns (ok: bool, state: nat, accept: bool, last: nat)
    requires Shaped(t) && state0 < |t.decode| && from <= to <= |src| && last0 + 2 * (to - from) <= buf.Length
    modifies buf
    ensures var d := Decode(t, state0, accept0, src[from..to]);
            && (ok <==> d.Decoded? && (final ==> d.accept))
            && (ok ==> state == d.state && accept == d.accept && last <= buf.Length && buf[..last] == old(buf[..last0]) + d.out)
  {
    state, accept, last := state0, accept0, last0;
    ghost var goal, before := Decode(t, state0, accept0, src[from..to]), buf[..last0];
    for i := from to to
      invariant state < |t.decode| && last + 2 * (to - i) <= buf.Length
      invariant Continues(goal, before, buf[..last], Decode(t, state, accept, src[i..to]))
    {
      DecodeStep(t, state, accept, src[i..to]);
      assert src[i..to][1..] == src[i + 1..to];
      ghost var d, written := DecodeByte(t, state, src[i]), buf[..last];
      var c := t.decode[state][src[i] / 16];
      assert CellShaped(t, c);
      if c.Fail? {
        return false, state, accept, last;
      }
      last := EmitSymbol(buf, last, c);
      c := t.decode[c.state][src[i] % 16];
      assert CellShaped(t, c);
      if c.Fail? {
        return false, state, accept, last;
      }
      last := EmitSymbol(buf, last, c);
      state, accept := c.state, c.accepted;
      ContinuesOn(goal, before, written, d.out, Decode(t, state, accept, src[i + 1..to]));
      assert buf[..last] == written + d.out;
    }
    if final && !accept {
      return false, state, accept, last;
    }
    return true, state, accept, last;
  }

  /** The symbol a cell completes, if any. */
  method EmitSymbol(buf: array<Byte>, last0: nat, c: Cell) returns (last: nat)
    requires c.Go? && |c.sym| <= 1 && last0 < buf.Length
    modifies buf
    ensures last == last0 + |c.sym| && buf[..last] == old(buf[..last0]) + c.sym
  {
    last := last0;
    if |c.sym| == 1 {
      buf[last] := c.sym[0];
      last := last + 1;
    }
  }

  /** With `now` written after `before` was there, decoding the rest as `d` completes `goal`. */
  ghost predicate Continues(goal: Decoded, before: Bytes, now: Bytes, d: Decoded)
  {
    if d.Rejected? then goal.Rejected?
    else goal.Decoded? && goal.state == d.state && goal.accept == d.accept && before + goal.out == now + d.out
  }

  lemma ContinuesOn(goal: Decoded, before: Bytes, now: Bytes, out: Bytes, d: Decoded)
    requires Continues(goal, before, now, AfterOutput(out, d))
    ensures Continues(goal, before, now + out, d)
  {
    assert d.Decoded? ==> now + out + d.out == now + (out + d.out);
  }

  lemma DecodeStep(t: Tables, state: nat, accept: bool, bs: Bytes)
    requires Shaped(t) && state < |t.decode| && bs != []
    ensures Decode(t, state, accept, bs) ==
            var d := DecodeByte(t, state, bs[0]);
            if d.Rejected? then d else AfterOutput(d.out, Decode(t, d.state, d.accept, bs[1..]))
  {
  }

  // ---- The table decoder follows the trie ----

  lemma {:induction false} WalkConcat(t: Tables, n: BitString, a: BitString, b: BitString)
    requires |t.nbits| == |t.code| == 257
    ensures Walk(t, n, a + b) ==
            var w := Walk(t, n, a);
            if w.At? then Before(w.out, Walk(t, w.node, b)) else w
    decreases |a|
  {
    if a == [] {
      assert a + b == b;
      BeforeNothing(Walk(t, n, b));
    } else {
      assert (a + b)[0] == a[0] && (a + b)[1..] == a[1..] + b;
      var n' := n + [a[0]];
      match NodeAt(t, n') {
        case Leaf(s) =>
          if s < EOS {
            WalkConcat(t, [], a[1..], b);
            var w := Walk(t, [], a[1..]);
            if w.At? {
              BeforeTwice([s], w.out, Walk(t, w.node, b));
            }
          }
        case Inner => WalkConcat(t, n', a[1..], b);
        case Outside =>
      }
    }
  }

  lemma BeforeNothing(w: Walked)
    ensures Before([], w) == w
  {
    assert w.At? ==> [] + w.out == w.out;
  }

  lemma BeforeTwice(a: Bytes, b: Bytes, w: Walked)
    ensures Before(a, Before(b, w)) == Before(a + b, w)
  {
    assert w.At? ==> a + (b + w.out) == a + b + w.out;
  }

  /** A proper prefix of a code is an inner node. */
  lemma PrefixIsInner(t: Tables, n: BitString, s: nat)
    requires |t.nbits| == |t.code| == 257 && PrefixCode(t)
    requires s <= EOS && n < CodeOf(t, s)
    ensures NodeAt(t, n) == Inner
  {
    assert IsInner(t, n);
  }

  /** A code is the leaf of its own symbol. */
  lemma CodeIsLeaf(t: Tables, s: nat)
    requires |t.nbits| == |t.code| == 257 && PrefixCode(t) && s <= EOS
    ensures NodeAt(t, CodeOf(t, s)) == Leaf(s)
  {
    assert IsLeaf(t, CodeOf(t, s), s);
  }

  /** The walk from a node inside code `s` through the rest of the code completes exactly that symbol. */
  lemma {:induction false} WalkCode(t: Tables, s: Byte, n: BitString, bits: BitString)
    requires |t.nbits| == |t.code| == 257 && PrefixCode(t)
    requires n + bits == CodeOf(t, s) && bits != []
    ensures Walk(t, n, bits) == At([], [s])
    decreases |bits|
  {
    var n' := n + [bits[0]];
    assert n' + bits[1..] == n + bits;
    if |bits| == 1 {
      assert n' == n + bits;
      CodeIsLeaf(t, s);
      assert Walk(t, [], bits[1..]) == At([], []);
    } else {
      PrefixIsInner(t, n', s);
      WalkCode(t, s, n', bits[1..]);
    }
  }

  /** Walking the codes of a string from the root emits the string and ends at the root. */
  lemma {:induction false} WalkCodes(t: Tables, src: Bytes)
    requires |t.nbits| == |t.code| == 257 && PrefixCode(t)
    ensures Walk(t, [], Codes(t, src)) == At([], src)
  {
    if src != [] {
      var c := CodeOf(t, src[0]);
      assert [] + c == c;
      WalkCode(t, src[0], [], c);
      WalkConcat(t, [], c, Codes(t, src[1..]));
      WalkCodes(t, src[1..]);
      assert [src[0]] + src[1..] == src;
    }
  }

  /** A walk that stays inside code `s` emits nothing. */
  lemma {:induction false} WalkInside(t: Tables, s: nat, n: BitString, bits: BitString)
    requires |t.nbits| == |t.code| == 257 && PrefixCode(t)
    requires s <= EOS && n + bits < CodeOf(t, s)
    ensures Walk(t, n, bits) == At(n + bits, [])
    decreases |bits|
  {
    if bits == [] {
      assert n + bits == n;
    } else {
      var n' := n + [bits[0]];
      assert n' + bits[1..] == n + bits;
      PrefixIsInner(t, n', s);
      WalkInside(t, s, n', bits[1..]);
    }
  }

  /** One table look-up pair is an eight-bit walk. */
  lemma DecodeByteWalks(t: Tables, state: nat, b: Byte)
    requires WellFormed(t) && state < |t.decode|
    ensures var d, w := DecodeByte(t, state, b), Walk(t, t.node[state], BitsOf(b, 8));
            if w.Dead? then d.Rejected?
            else d.Decoded? && t.node[d.state] == w.node && d.out == w.out && d.accept == IsPadding(w.node)
  {
    ByteNibbles(b);
    var hi, lo := BitsOf(b / 16, 4), BitsOf(b % 16, 4);
    WalkConcat(t, t.node[state], hi, lo);
    var c := t.decode[state][b / 16];
    assert CellWalks(t, c, Walk(t, t.node[state], hi));
    if c.Go? {
      assert CellShaped(t, c);
      assert CellWalks(t, t.decode[c.state][b % 16], Walk(t, t.node[c.state], lo));
    }
  }

  lemma ByteNibbles(b: Byte)
    ensures BitsOf(b, 8) == BitsOf(b / 16, 4) + BitsOf(b % 16, 4)
  {
    Pow2Small();
    var hi, lo := BitsOf(b / 16, 4), BitsOf(b % 16, 4);
    ValBitsOf(b / 16, 4);
    ValBitsOf(b % 16, 4);
    ValBitsOf(b, 8);
    ValConcat(hi, lo);
    ShlMul(b / 16, 4);
    ValInjective(BitsOf(b, 8), hi + lo);
  }

  /** Table decoding of whole bytes is the walk over their bits. */
  lemma {:induction false} DecodeWalks(t: Tables, state: nat, accept: bool, bs: Bytes)
    requires WellFormed(t) && state < |t.decode|
    ensures var d, w := Decode(t, state, accept, bs), Walk(t, t.node[state], BytesToBits(bs));
            if w.Dead? then d.Rejected?
            else d.Decoded? && t.node[d.state] == w.node && d.out == w.out
                 && d.accept == (if bs == [] then accept else IsPadding(w.node))
    decreases |bs|
  {
    if bs != [] {
      DecodeByteWalks(t, state, bs[0]);
      WalkConcat(t, t.node[state], BitsOf(bs[0], 8), BytesToBits(bs[1..]));
      var d := DecodeByte(t, state, bs[0]);
      if d.Decoded? {
        DecodeWalks(t, d.state, d.accept, bs[1..]);
      }
    }
  }

  /** Decoding an encoded string gives the string back, in an accepting state. */
  lemma RoundTrip(t: Tables, src: Bytes)
    requires WellFormed(t)
    ensures var d := Decode(t, 0, true, Encoded(t, src)); d.Decoded? && d.accept && d.out == src
  {
    var bits := Codes(t, src);
    var k := PadLength(|bits|);
    PackBits(Padded(bits));
    DecodeWalks(t, 0, true, Encoded(t, src));
    WalkCodes(t, src);
    WalkConcat(t, [], bits, Ones(k));
    assert [] + Ones(k) == Ones(k);
    WalkInside(t, EOS, [], Ones(k));
  }

  /** Decoding in pieces: the context carries everything the next piece needs. */
  lemma {:induction false} DecodeSplit(t: Tables, state: nat, accept: bool, a: Bytes, b: Bytes)
    requires Shaped(t) && state < |t.decode|
    ensures Decode(t, state, accept, a + b) ==
            var d := Decode(t, state, accept, a);
            if d.Rejected? then d else AfterOutput(d.out, Decode(t, d.state, d.accept, b))
    decreases |a|
  {
    if a == [] {
      assert a + b == b;
      AfterNothing(Decode(t, state, accept, b));
    } else {
      assert (a + b)[1..] == a[1..] + b;
      var d := DecodeByte(t, state, a[0]);
      if d.Decoded? {
        DecodeSplit(t, d.state, d.accept, a[1..], b);
        var d' := Decode(t, d.state, d.accept, a[1..]);
        if d'.Decoded? {
          AfterTwice(d.out, d'.out, Decode(t, d'.state, d'.accept, b));
        }
      }
    }
  }

  lemma AfterNothing(d: Decoded)
    ensures AfterOutput([], d) == d
  {
    assert d.Decoded? ==> [] + d.out == d.out;
  }

  lemma AfterTwice(a: Bytes, b: Bytes, d: Decoded)
    ensures AfterOutput(a, AfterOutput(b, d)) == AfterOutput(a + b, d)
  {
    assert d.Decoded? ==> a + (b + d.out) == a + b + d.out;
  }

  /** `nghttp2_hd_huff_encode_count`: the length of the encoded string. */
  method HuffEncodeCount(t: Tables, src: Bytes) returns (len: nat)
    requires |t.nbits| == |t.code| == 257
    ensures len == |Encoded(t, src)|
  {
    var nbits: nat := 0;
    for i := 0 to |src|
      invariant nbits == |Codes(t, src[..i])|
    {
      assert src[..i + 1] == src[..i] + [src[i]];
      CodesAppend(t, src[..i], src[i]);
      nbits := nbits + t.nbits[src[i]];
    }
    assert src[..|src|] == src;
    len := (nbits + 7) / 8;
  }
}
