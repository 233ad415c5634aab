/** Base 64 (section 4 of RFC 4648). */
module Base64 {
  import opened Bits

  const PAD: Byte := 61

  type Sextet = x: int | 0 <= x < 64

  /** `base64_chars` */
  function Letter(v: Sextet): Byte
  {
    if v < 26 then 65 + v else if v < 52 then 71 + v else if v < 62 then v - 4 else if v == 62 then 43 else 47
  }

  /** `is_base64`, in the C locale. */
  predicate IsBase64(c: Byte)
  {
    65 <= c <= 90 || 97 <= c <= 122 || 48 <= c <= 57 || c == 43 || c == 47
  }

  /** `base64_chars.find` */
  function Find(c: Byte): Sextet
    requires IsBase64(c)
  {
    if 65 <= c <= 90 then c - 65 else if 97 <= c <= 122 then c - 71 else if 48 <= c <= 57 then c + 4 else if c == 43 then 62 else 63
  }

  lemma FindLetter(v: Sextet)
    ensures IsBase64(Letter(v)) && Letter(v) != PAD && Find(Letter(v)) == v
  {
  }

  const UPPER: string := "ABCDEFGHIJKLMNOPQRSTUVWXYZ"
  const LOWER: string := "abcdefghijklmnopqrstuvwxyz"

  /** Table 1 of the standard. */
  function Alphabet(): (s: string)
    ensures |s| == 64
  {
    UPPER + LOWER + "0123456789+/"
  }

  lemma LetterInAlphabet(v: Sextet)
    ensures Letter(v) == Alphabet()[v] as int
  {
    var rest := "0123456789+/";
    assert Alphabet()[v] == if v < 26 then UPPER[v] else if v < 52 then LOWER[v - 26] else rest[v - 52];
    hide Alphabet;
  }

  /** A character is a letter if and only if it is in the alphabet, and stands for its place there. */
  lemma FindInAlphabet(c: Byte)
    ensures IsBase64(c) <==> exists i :: 0 <= i < 64 && Alphabet()[i] as int == c
    ensures IsBase64(c) ==> Alphabet()[Find(c)] as int == c
  {
    forall i | 0 <= i < 64 && Alphabet()[i] as int == c
      ensures IsBase64(c)
    {
      LetterInAlphabet(i);
      FindLetter(i);
    }
    if IsBase64(c) {
      LetterInAlphabet(Find(c));
      assert Letter(Find(c)) == c;
    }
  }

  // ---- Three bytes in four letters ----

  function Quad(a: Byte, b: Byte, c: Byte): (r: seq<Sextet>)
    ensures |r| == 4
  {
    [a / 4, a % 4 * 16 + b / 16, b % 16 * 4 + c / 64, c % 64]
  }

  /** Four letters in three bytes; `unsigned char` drops what is shifted out. */
  function Triple(a: Byte, b: Byte, c: Byte, d: Byte): (r: Bytes)
    ensures |r| == 3
  {
    [(a * 4 + b / 16 % 4) % 256, (b % 16 * 16 + c / 4 % 16) % 256, (c % 4 * 64 + d) % 256]
  }

  lemma TripleQuad(a: Byte, b: Byte, c: Byte)
    ensures var q := Quad(a, b, c); Triple(q[0], q[1], q[2], q[3]) == [a, b, c]
  {
    Digits(a % 4, b / 16, 16);
    Digits(b % 16, c / 64, 4);
    Rebuilt(a, 4, a % 4);
    Rebuilt(b, 16, b % 16);
    Rebuilt(c, 64, c % 64);
  }

  lemma Rebuilt(b: Byte, base: nat, low: nat)
    requires (base == 4 || base == 16 || base == 64) && low == b % base
    ensures low % base == low && b / base * base + low == b == b % 256
  {
  }

  lemma Digits(high: nat, low: nat, base: nat)
    requires (base == 16 || base == 4 || base == 64) && low < base
    ensures (high * base + low) / base == high && (high * base + low) % base == low
  {
  }

  function Letters(s: seq<Sextet>): (r: Bytes)
    ensures |r| == |s| && forall i :: 0 <= i < |s| ==> r[i] == Letter(s[i])
  {
    seq(|s|, i requires 0 <= i < |s| => Letter(s[i]))
  }

  /** The encoding of up to two bytes that are left over. */
  function Tail(s: Bytes): Bytes
    requires |s| < 3
  {
    if s == [] then []
    else if |s| == 1 then Letters(Quad(s[0], 0, 0)[..2]) + [PAD, PAD]
    else Letters(Quad(s[0], s[1], 0)[..3]) + [PAD]
  }

  function Encoded(s: Bytes): Bytes
  {
    if |s| < 3 then Tail(s) else Letters(Quad(s[0], s[1], s[2])) + Encoded(s[3..])
  }

  /** How many letters come before anything else. */
  function LetterRun(t: Bytes): (n: nat)
    ensures n <= |t| && (forall i :: 0 <= i < n ==> IsBase64(t[i])) && (n < |t| ==> !IsBase64(t[n]))
  {
    if t == [] || !IsBase64(t[0]) then 0 else 1 + LetterRun(t[1..])
  }

  /** The bytes of up to three letters that are left over. */
  function TailBytes(t: Bytes): Bytes
    requires |t| < 4 && forall c <- t :: IsBase64(c)
  {
    if |t| < 2 then []
    else if |t| == 2 then Triple(Find(t[0]), Find(t[1]), 0, 0)[..1]
    else Triple(Find(t[0]), Find(t[1]), Find(t[2]), 0)[..2]
  }

  /** The bytes of a string of letters. */
  function LetterBytes(t: Bytes): Bytes
    requires forall c <- t :: IsBase64(c)
  {
    if |t| < 4 then TailBytes(t) else Triple(Find(t[0]), Find(t[1]), Find(t[2]), Find(t[3])) + LetterBytes(t[4..])
  }

  /** Everything from the first other character on is ignored. */
  function Decoded(t: Bytes): Bytes
  {
    LetterBytes(t[..LetterRun(t)])
  }

  // ---- Decoding inverts encoding ----

  /** The letters of an encoding, without the padding. */
  function Unpadded(s: Bytes): Bytes
  {
    if s == [] then []
    else if |s| == 1 then Letters(Quad(s[0], 0, 0)[..2])
    else if |s| == 2 then Letters(Quad(s[0], s[1], 0)[..3])
    else Letters(Quad(s[0], s[1], s[2])) + Unpadded(s[3..])
  }

  /** How much padding there is. */
  function PadLength(s: Bytes): nat
  {
    if |s| % 3 == 1 then 2 else if |s| % 3 == 2 then 1 else 0
  }

  function Padding(n: nat): Bytes
  {
    seq(n, _ => PAD)
  }

  lemma AreLetters(q: seq<Sextet>)
    ensures forall c <- Letters(q) :: IsBase64(c)
  {
    hide Letter, IsBase64;
    forall v: Sextet
      ensures IsBase64(Letter(v))
    {
      FindLetter(v);
    }
  }

  lemma ShapeTail(s: Bytes)
    requires |s| < 3
    ensures Tail(s) == Unpadded(s) + Padding(PadLength(s)) && forall c <- Unpadded(s) :: IsBase64(c)
  {
    hide IsBase64, Quad, Letters;
    if |s| == 1 {
      AreLetters(Quad(s[0], 0, 0)[..2]);
    } else if |s| == 2 {
      AreLetters(Quad(s[0], s[1], 0)[..3]);
    }
    assert Padding(0) == [] && Padding(1) == [PAD] && Padding(2) == [PAD, PAD];
  }

  /** An encoding is as many letters as it takes, padded to a multiple of four. */
  lemma {:induction false} Shape(s: Bytes)
    ensures Encoded(s) == Unpadded(s) + Padding(PadLength(s))
    ensures |Encoded(s)| == (|s| + 2) / 3 * 4
    ensures forall c <- Unpadded(s) :: IsBase64(c)
    decreases |s|
  {
    hide IsBase64, Quad, Letters, Padding, Tail, PadLength;
    if |s| < 3 {
      ShapeTail(s);
      TailLength(s);
    } else {
      AreLetters(Quad(s[0], s[1], s[2]));
      Shape(s[3..]);
      Thirds(s);
      assert Letters(Quad(s[0], s[1], s[2])) + (Unpadded(s[3..]) + Padding(PadLength(s))) == Encoded(s);
    }
  }

  lemma Thirds(s: Bytes)
    requires |s| >= 3
    ensures (|s| + 2) / 3 == (|s| - 1) / 3 + 1 && PadLength(s[3..]) == PadLength(s)
  {
  }

  lemma TailLength(s: Bytes)
    requires |s| < 3
    ensures |Tail(s)| == if s == [] then 0 else 4
  {
  }

  lemma {:induction false} RunOfLetters(a: Bytes, n: nat)
    requires forall c <- a :: IsBase64(c)
    ensures LetterRun(a + Padding(n)) == |a|
    decreases |a|
  {
    if a == [] {
      assert a + Padding(n) == Padding(n);
    } else {
      assert (a + Padding(n))[1..] == a[1..] + Padding(n);
      RunOfLetters(a[1..], n);
    }
  }

  lemma {:induction false} LettersBack(s: Bytes)
    requires forall c <- Unpadded(s) :: IsBase64(c)
    ensures LetterBytes(Unpadded(s)) == s
    decreases |s|
  {
    hide Letter, IsBase64, Find, Quad, Triple;
    FindsAll();
    var q := QuadOf(s);
    if |s| >= 3 {
      var u := Unpadded(s);
      assert u[4..] == Unpadded(s[3..]);
      LettersBack(s[3..]);
      assert s == [s[0], s[1], s[2]] + s[3..];
    }
  }

  lemma FindsAll()
    ensures forall v: Sextet :: IsBase64(Letter(v)) && Find(Letter(v)) == v
    ensures forall a: Byte, b: Byte, c: Byte :: Triple(Quad(a, b, c)[0], Quad(a, b, c)[1], Quad(a, b, c)[2], Quad(a, b, c)[3]) == [a, b, c]
    ensures forall a: Byte :: Quad(a, 0, 0)[2] == Quad(a, 0, 0)[3] == 0
    ensures forall a: Byte, b: Byte :: Quad(a, b, 0)[3] == 0
  {
    forall v: Sextet
      ensures IsBase64(Letter(v)) && Find(Letter(v)) == v
    {
      FindLetter(v);
    }
    forall a: Byte, b: Byte, c: Byte
      ensures Triple(Quad(a, b, c)[0], Quad(a, b, c)[1], Quad(a, b, c)[2], Quad(a, b, c)[3]) == [a, b, c]
    {
      TripleQuad(a, b, c);
    }
  }

  function QuadOf(s: Bytes): seq<Sextet>
  {
    Quad(if |s| > 0 then s[0] else 0, if |s| > 1 then s[1] else 0, if |s| > 2 then s[2] else 0)
  }

  /** `base64_decode(base64_encode(s)) == s` for every byte string. */
  lemma RoundTrip(s: Bytes)
    ensures Decoded(Encoded(s)) == s
  {
    hide Encoded, Unpadded, LetterBytes, IsBase64;
    Shape(s);
    RunOfLetters(Unpadded(s), PadLength(s));
    LettersBack(s);
    var t := Encoded(s);
    assert t[..|Unpadded(s)|] == Unpadded(s);
  }

  // ---- Encoding inverts decoding ----

  lemma QuadTriple(a: Sextet, b: Sextet, c: Sextet, d: Sextet)
    ensures var t := Triple(a, b, c, d); Quad(t[0], t[1], t[2]) == [a, b, c, d]
  {
    Digits(a, b / 16, 4);
    Digits(b % 16, c / 4, 16);
    Digits(c % 4, d, 64);
    Halves(b, 16);
    Halves(c, 4);
    hide Triple;
    assert Triple(a, b, c, d) == [a * 4 + b / 16, b % 16 * 16 + c / 4, c % 4 * 64 + d] by {
      TripleSmall(a, b, c, d);
    }
  }

  lemma Halves(v: Sextet, base: nat)
    requires base == 16 || base == 4
    ensures v / base * base + v % base == v && v / base < 64 / base && v % base < base
  {
  }

  lemma TripleSmall(a: Sextet, b: Sextet, c: Sextet, d: Sextet)
    ensures Triple(a, b, c, d) == [a * 4 + b / 16, b % 16 * 16 + c / 4, c % 4 * 64 + d]
  {
  }

  /** Any letters in groups of four are the encoding of what they decode to, which takes three quarters of them. */
  lemma {:induction false} EncodedBack(t: Bytes)
    requires |t| % 4 == 0 && forall i :: 0 <= i < |t| ==> IsBase64(t[i])
    ensures |LetterBytes(t)| == |t| / 4 * 3 && Encoded(LetterBytes(t)) == t
    decreases |t|
  {
    hide Letter, IsBase64, Find, Quad, Triple;
    if t != [] {
      var q := Triple(Find(t[0]), Find(t[1]), Find(t[2]), Find(t[3]));
      QuadTriple(Find(t[0]), Find(t[1]), Find(t[2]), Find(t[3]));
      EncodedBack(t[4..]);
      var s := LetterBytes(t);
      assert s == q + LetterBytes(t[4..]) && s[3..] == LetterBytes(t[4..]);
      forall i | 0 <= i < 4
        ensures Letter(Find(t[i])) == t[i]
      {
        LetterFound(t[i]);
      }
      assert Letters(Quad(s[0], s[1], s[2])) == t[..4];
    }
  }

  lemma LetterFound(c: Byte)
    requires IsBase64(c)
    ensures Letter(Find(c)) == c
  {
  }

  /** Nothing from the first other character on counts. */
  lemma StopsAtOther(a: Bytes, c: Byte, b: Bytes)
    requires (forall i :: 0 <= i < |a| ==> IsBase64(a[i])) && !IsBase64(c)
    ensures Decoded(a + [c] + b) == Decoded(a)
  {
    hide IsBase64, LetterBytes;
    RunStops(a, c, b);
    RunAll(a);
    assert (a + [c] + b)[..|a|] == a == a[..|a|];
  }

  lemma {:induction false} RunStops(a: Bytes, c: Byte, b: Bytes)
    requires (forall i :: 0 <= i < |a| ==> IsBase64(a[i])) && !IsBase64(c)
    ensures LetterRun(a + [c] + b) == |a|
    decreases |a|
  {
    hide IsBase64;
    if a != [] {
      assert (a + [c] + b)[1..] == a[1..] + [c] + b;
      RunStops(a[1..], c, b);
    }
  }

  lemma {:induction false} RunAll(a: Bytes)
    requires forall i :: 0 <= i < |a| ==> IsBase64(a[i])
    ensures LetterRun(a) == |a|
  {
    hide IsBase64;
    if a != [] {
      RunAll(a[1..]);
    }
  }

  // ---- The encoding by its definition ----

  function SextetBits(s: seq<Sextet>): (bits: BitString)
    ensures |bits| == 6 * |s|
  {
    if s == [] then [] else BitsOf(s[0], 6) + SextetBits(s[1..])
  }

  /** The values of the letters of an encoding. */
  function Sextets(s: Bytes): seq<Sextet>
  {
    if s == [] then []
    else if |s| == 1 then Quad(s[0], 0, 0)[..2]
    else if |s| == 2 then Quad(s[0], s[1], 0)[..3]
    else Quad(s[0], s[1], s[2]) + Sextets(s[3..])
  }

  lemma {:induction false} LettersOfSextets(s: Bytes)
    ensures Unpadded(s) == Letters(Sextets(s))
    decreases |s|
  {
    hide Letter, Quad;
    if |s| >= 3 {
      LettersOfSextets(s[3..]);
    }
  }

  /** The bits of a number are those of its parts. */
  lemma {:induction false} BitsJoin(hi: nat, lo: nat, j: nat, k: nat)
    requires lo < Pow2(k)
    ensures BitsOf(Shl(hi, k) + lo, j + k) == BitsOf(hi, j) + BitsOf(lo, k)
    decreases k
  {
    if k > 0 {
      assert (Shl(hi, k) + lo) / 2 == Shl(hi, k - 1) + lo / 2;
      BitsJoin(hi, lo / 2, j, k - 1);
    }
  }

  lemma Joins(hi: nat, lo: nat)
    ensures lo < 4 ==> BitsOf(4 * hi + lo, 8) == BitsOf(hi, 6) + BitsOf(lo, 2)
    ensures lo < 16 ==> BitsOf(16 * hi + lo, 8) == BitsOf(hi, 4) + BitsOf(lo, 4) && BitsOf(16 * hi + lo, 6) == BitsOf(hi, 2) + BitsOf(lo, 4)
    ensures lo < 64 ==> BitsOf(64 * hi + lo, 8) == BitsOf(hi, 2) + BitsOf(lo, 6)
    ensures lo < 4 ==> BitsOf(4 * hi + lo, 6) == BitsOf(hi, 4) + BitsOf(lo, 2)
  {
    hide BitsOf;
    Pow2Small();
    ShlMul(hi, 2);
    ShlMul(hi, 4);
    ShlMul(hi, 6);
    if lo < 4 {
      BitsJoin(hi, lo, 6, 2);
      BitsJoin(hi, lo, 4, 2);
    }
    if lo < 16 {
      BitsJoin(hi, lo, 4, 4);
      BitsJoin(hi, lo, 2, 4);
    }
    if lo < 64 {
      BitsJoin(hi, lo, 2, 6);
    }
  }

  /** Twenty-four bits in four groups of six. */
  lemma QuadBits(a: Byte, b: Byte, c: Byte)
    ensures SextetBits(Quad(a, b, c)) == BytesToBits([a, b, c])
  {
    hide BitsOf, Pow2, Shl;
    Joins(a / 4, a % 4);
    Joins(b / 16, b % 16);
    Joins(c / 64, c % 64);
    Joins(a % 4, b / 16);
    Joins(b % 16, c / 64);
    FourParts(Quad(a, b, c));
    ThreeParts([a, b, c]);
  }

  lemma FourParts(q: seq<Sextet>)
    requires |q| == 4
    ensures SextetBits(q) == BitsOf(q[0], 6) + BitsOf(q[1], 6) + BitsOf(q[2], 6) + BitsOf(q[3], 6)
  {
    hide BitsOf;
    assert q[1..][1..] == q[2..] && q[2..][1..] == q[3..] && q[3..][1..] == [];
    assert SextetBits(q[3..]) == BitsOf(q[3], 6);
    assert SextetBits(q[2..]) == BitsOf(q[2], 6) + SextetBits(q[3..]);
    assert SextetBits(q[1..]) == BitsOf(q[1], 6) + SextetBits(q[2..]);
  }

  lemma ThreeParts(s: Bytes)
    requires |s| == 3
    ensures BytesToBits(s) == BitsOf(s[0], 8) + BitsOf(s[1], 8) + BitsOf(s[2], 8)
  {
    hide BitsOf;
    assert s[1..][1..] == s[2..] && s[2..][1..] == [];
    assert BytesToBits(s[2..]) == BitsOf(s[2], 8);
    assert BytesToBits(s[1..]) == BitsOf(s[1], 8) + BytesToBits(s[2..]);
  }

  lemma {:induction false} SextetBitsConcat(a: seq<Sextet>, b: seq<Sextet>)
    ensures SextetBits(a + b) == SextetBits(a) + SextetBits(b)
    decreases |a|
  {
    hide BitsOf;
    if a == [] {
      assert a + b == b;
    } else {
      assert (a + b)[1..] == a[1..] + b;
      SextetBitsConcat(a[1..], b);
    }
  }

  /** The letters of an encoding hold the bits of the bytes in groups of six, the last group filled with zeros. */
  lemma BitsInGroups(s: Bytes)
    ensures exists v, n :: Unpadded(s) == Letters(v) && 0 <= n < 6 && SextetBits(v) == BytesToBits(s) + Zeros(n)
  {
    hide SextetBits, BytesToBits, Unpadded, Sextets, Letters, Zeros;
    LettersOfSextets(s);
    SextetsInGroups(s);
  }

  lemma {:induction false} SextetsInGroups(s: Bytes)
    ensures exists n :: 0 <= n < 6 && SextetBits(Sextets(s)) == BytesToBits(s) + Zeros(n)
    decreases |s|
  {
    hide BitsOf, Quad, Pow2, Shl;
    if |s| >= 3 {
      var a, b := s[..3], s[3..];
      assert s == a + b && a == [s[0], s[1], s[2]];
      QuadBits(s[0], s[1], s[2]);
      BytesToBitsConcat(a, b);
      SextetBitsConcat(Quad(s[0], s[1], s[2]), Sextets(b));
      SextetsInGroups(b);
    } else {
      TailBits(s);
    }
  }

  lemma TailBits(s: Bytes)
    requires |s| < 3
    ensures exists n :: 0 <= n < 6 && SextetBits(Sextets(s)) == BytesToBits(s) + Zeros(n)
  {
    hide SextetBits, BytesToBits, Zeros, Quad;
    if |s| == 0 {
      NoneLeft();
    } else if |s| == 1 {
      OneLeft(s[0]);
      assert s == [s[0]];
    } else {
      TwoLeft(s[0], s[1]);
      assert s == [s[0], s[1]];
    }
  }

  lemma NoneLeft()
    ensures SextetBits([]) == BytesToBits([]) + Zeros(0)
  {
  }

  lemma OneLeft(a: Byte)
    ensures SextetBits(Quad(a, 0, 0)[..2]) == BytesToBits([a]) + Zeros(4)
  {
    hide BitsOf, Pow2, Shl;
    var q := Quad(a, 0, 0)[..2];
    Joins(a / 4, a % 4);
    Joins(a % 4, 0);
    ZeroBits(4);
    assert q[1..][1..] == [] && [a][1..] == [];
    assert SextetBits(q[1..]) == BitsOf(q[1], 6);
    assert BytesToBits([a]) == BitsOf(a, 8);
  }

  lemma TwoLeft(a: Byte, b: Byte)
    ensures SextetBits(Quad(a, b, 0)[..3]) == BytesToBits([a, b]) + Zeros(2)
  {
    hide BitsOf, Pow2, Shl;
    var q, s := Quad(a, b, 0)[..3], [a, b];
    Joins(a / 4, a % 4);
    Joins(b / 16, b % 16);
    Joins(a % 4, b / 16);
    Joins(b % 16, 0);
    ZeroBits(2);
    assert q[1..][1..] == q[2..] && q[2..][1..] == [];
    assert SextetBits(q[2..]) == BitsOf(q[2], 6);
    assert SextetBits(q[1..]) == BitsOf(q[1], 6) + SextetBits(q[2..]);
    assert s[1..] == [b] && s[1..][1..] == [];
    assert BytesToBits([b]) == BitsOf(b, 8);
  }

  lemma ZeroBits(n: nat)
    ensures BitsOf(0, n) == Zeros(n)
  {
    ValZeros(n);
    ValBitsOf(0, n);
    ValInjective(BitsOf(0, n), Zeros(n));
  }

  // ---- The loops ----

  lemma {:induction false} EncodedConcat(a: Bytes, b: Bytes)
    requires |a| % 3 == 0
    ensures Encoded(a + b) == Encoded(a) + Encoded(b)
    decreases |a|
  {
    hide Quad, Letters;
    if a == [] {
      assert a + b == b;
    } else {
      assert (a + b)[3..] == a[3..] + b;
      EncodedConcat(a[3..], b);
    }
  }

  lemma {:induction false} LetterBytesConcat(a: Bytes, b: Bytes)
    requires |a| % 4 == 0 && (forall c <- a :: IsBase64(c)) && (forall c <- b :: IsBase64(c))
    ensures LetterBytes(a + b) == LetterBytes(a) + LetterBytes(b)
    decreases |a|
  {
    hide Triple, Find, IsBase64;
    if a == [] {
      assert a + b == b;
    } else {
      assert (a + b)[4..] == a[4..] + b;
      LetterBytesConcat(a[4..], b);
    }
  }

  /** Appends letters for the first `n` values. */
  method PutLetters(ret0: Bytes, four: array<Byte>, n: nat) returns (ret: Bytes)
    requires n <= four.Length && forall k :: 0 <= k < n ==> four[k] < 64
    ensures ret == ret0 + Letters(four[..n])
  {
    hide Letter;
    ret := ret0;
    var j: nat := 0;
    while j < n
      invariant j <= n && ret == ret0 + Letters(four[..j])
    {
      assert four[..j + 1] == four[..j] + [four[j]];
      ret := ret + [Letter(four[j])];
      j := j + 1;
    }
  }

  /** `char_array_4` from `char_array_3` */
  method Spread(three: array<Byte>, four: array<Byte>)
    requires three.Length == 3 && four.Length == 4 && three != four
    modifies four
    ensures four[..] == Quad(three[0], three[1], three[2])
  {
    four[0] := three[0] / 4;
    four[1] := three[0] % 4 * 16 + three[1] / 16;
    four[2] := three[1] % 16 * 4 + three[2] / 64;
    four[3] := three[2] % 64;
    var q := Quad(three[0], three[1], three[2]);
    assert four[..] == [four[0], four[1], four[2], four[3]] == q;
  }

  lemma EncodedShort(s: Bytes)
    ensures |s| < 3 ==> Encoded(s) == Tail(s)
    ensures |s| == 3 ==> Encoded(s) == Letters(Quad(s[0], s[1], s[2]))
  {
    hide Letters, Quad;
    if |s| == 3 {
      assert Encoded(s[3..]) == [];
    }
  }

  /** What is left over, filled with zeros, and the padding. */
  method EncodeTail(ret0: Bytes, three: array<Byte>, four: array<Byte>, i0: nat) returns (ret: Bytes)
    requires 0 < i0 < 3 && three.Length == 3 && four.Length == 4 && three != four
    modifies three, four
    ensures ret == ret0 + Tail(old(three[..i0]))
  {
    hide Letters;
    ghost var s := three[..i0];
    var i := i0;
    var j := i;
    while j < 3
      invariant i <= j <= 3 && three[..i] == s && forall k :: i <= k < j ==> three[k] == 0
    {
      three[j] := 0;
      j := j + 1;
    }
    four[0] := three[0] / 4;
    four[1] := three[0] % 4 * 16 + three[1] / 16;
    four[2] := three[1] % 16 * 4 + three[2] / 64;
    assert s[0] == three[..i][0] && (i > 1 ==> s[1] == three[..i][1]);
    ghost var q := Quad(s[0], if i > 1 then s[1] else 0, 0);
    assert four[..i + 1] == q[..i + 1];
    ret := PutLetters(ret0, four, i + 1);
    ghost var base := ret;
    while i < 3
      invariant i0 <= i <= 3 && ret == base + Padding(i - i0)
    {
      ret := ret + [PAD];
      i := i + 1;
    }
    assert Padding(1) == [PAD] && Padding(2) == [PAD, PAD];
  }

  /** `base64_encode` */
  method Encode(s: Bytes) returns (ret: Bytes)
    ensures ret == Encoded(s)
  {
    hide Encoded, Quad, Letters;
    ret := [];
    var three, four := new Byte[3], new Byte[4];
    var i: nat, at: nat := 0, 0;
    EncodedShort([]);
    assert s[..0] == [];
    while at < |s|
      invariant i <= at <= |s| && i < 3 && (at - i) % 3 == 0
      invariant three[..i] == s[at - i..at] && ret == Encoded(s[..at - i])
    {
      three[i] := s[at];
      i, at := i + 1, at + 1;
      assert three[..i] == s[at - i..at];
      if i == 3 {
        Spread(three, four);
        ret := PutLetters(ret, four, 4);
        EncodedShort(s[at - 3..at]);
        EncodedConcat(s[..at - 3], s[at - 3..at]);
        assert s[..at - 3] + s[at - 3..at] == s[..at] && four[..4] == four[..];
        i := 0;
      }
    }
    assert s == s[..at - i] + s[at - i..];
    EncodedConcat(s[..at - i], s[at - i..]);
    EncodedShort(s[at - i..]);
    if i > 0 {
      ret := EncodeTail(ret, three, four, i);
    } else {
      assert s[at..] == [];
    }
  }

  /** Replaces the first `n` letters by their values. */
  method FindLetters(four: array<Byte>, n: nat)
    requires n <= four.Length && forall k :: 0 <= k < n ==> IsBase64(four[k])
    modifies four
    ensures forall k :: 0 <= k < n ==> four[k] == Find(old(four[k]))
  {
    hide Find, IsBase64;
    var j: nat := 0;
    while j < n
      invariant j <= n
      invariant forall k :: 0 <= k < j ==> four[k] == Find(old(four[k]))
      invariant forall k :: j <= k < n ==> four[k] == old(four[k])
    {
      four[j] := Find(four[j]);
      j := j + 1;
    }
  }

  /** `char_array_3` from `char_array_4` */
  method Gather(four: array<Byte>, three: array<Byte>)
    requires three.Length == 3 && four.Length == 4 && three != four
    modifies three
    ensures three[..] == Triple(four[0], four[1], four[2], four[3])
  {
    var a: int, b: int, c: int, d: int := four[0], four[1], four[2], four[3];
    three[0] := (a * 4 + b / 16 % 4) % 256;
    three[1] := (b % 16 * 16 + c / 4 % 16) % 256;
    three[2] := (c % 4 * 64 + d) % 256;
    assert three[..] == [three[0], three[1], three[2]];
  }

  /** `base64_decode` */
  method Decode(t: Bytes) returns (ret: Bytes)
    ensures ret == Decoded(t)
  {
    hide LetterBytes, IsBase64, Triple, Find;
    ret := [];
    var three, four := new Byte[3], new Byte[4];
    var i: nat, at: nat := 0, 0;
    ghost var run := LetterRun(t);
    LetterBytesShort([]);
    assert t[..0] == [];
    while at < |t| && t[at] != PAD && IsBase64(t[at])
      invariant i <= at <= run && i < 4 && (at - i) % 4 == 0
      invariant four[..i] == t[at - i..at]
      invariant (forall c <- t[..at - i] :: IsBase64(c)) && ret == LetterBytes(t[..at - i])
    {
      four[i] := t[at];
      i, at := i + 1, at + 1;
      assert four[..i] == t[at - i..at];
      if i == 4 {
        ghost var s := t[at - 4..at];
        assert t[..at - 4] + s == t[..at] && four[..] == four[..4];
        ret := DecodeFour(ret, four, three, s);
        LetterBytesConcat(t[..at - 4], s);
        i := 0;
      }
    }
    PadIsNoLetter();
    assert at == run && t[..at - i] + t[at - i..at] == t[..at];
    LetterBytesConcat(t[..at - i], t[at - i..at]);
    LetterBytesShort(t[at - i..at]);
    if i > 0 {
      ret := DecodeTail(ret, four, three, i, t[at - i..at]);
    } else {
      assert t[at..at] == [];
    }
  }

  lemma PadIsNoLetter()
    ensures !IsBase64(PAD)
  {
  }

  lemma LetterBytesShort(t: Bytes)
    requires forall c <- t :: IsBase64(c)
    ensures |t| < 4 ==> LetterBytes(t) == TailBytes(t)
    ensures |t| == 4 ==> LetterBytes(t) == Triple(Find(t[0]), Find(t[1]), Find(t[2]), Find(t[3]))
  {
    hide Triple, Find, IsBase64;
    if |t| == 4 {
      assert LetterBytes(t[4..]) == [];
    }
  }

  method DecodeFour(ret0: Bytes, four: array<Byte>, three: array<Byte>, ghost s: Bytes) returns (ret: Bytes)
    requires three.Length == 3 && four.Length == 4 && three != four && s == four[..] && forall c <- s :: IsBase64(c)
    modifies three, four
    ensures ret == ret0 + LetterBytes(s)
  {
    hide LetterBytes, Triple, Find, IsBase64;
    assert forall k :: 0 <= k < 4 ==> four[k] == s[k];
    FindLetters(four, 4);
    Gather(four, three);
    ret := ret0 + three[..];
    LetterBytesShort(s);
  }

  /** What up to three letters are worth: one byte less than there are letters. */
  method DecodeTail(ret0: Bytes, four: array<Byte>, three: array<Byte>, i: nat, ghost s: Bytes) returns (ret: Bytes)
    requires 0 < i < 4 && three.Length == 3 && four.Length == 4 && three != four && s == four[..i] && forall c <- s :: IsBase64(c)
    modifies three, four
    ensures ret == ret0 + TailBytes(s)
  {
    hide Find, IsBase64;
    assert forall k :: 0 <= k < i ==> four[k] == s[k];
    FindLetters(four, i);
    Gather(four, three); // the last byte is not used
    ret := ret0 + three[..i - 1];
    assert three[..i - 1] == three[..][..i - 1];
  }
}
