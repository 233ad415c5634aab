/** Bytes, powers of two, bit strings and the bitwise operators the codecs use. */
module Bits {

  type Byte = x: int | 0 <= x < 256

  type Bytes = seq<Byte>

  /** A bit string, most significant bit first. */
  type BitString = seq<bool>

  const UINT32_MAX: nat := 0xFFFF_FFFF

  function Pow2(n: nat): (p: nat)
    ensures p >= 1
  {
    if n == 0 then 1 else 2 * Pow2(n - 1)
  }

  lemma {:induction false} Pow2Mono(m: nat, n: nat)
    requires m <= n
    ensures Pow2(m) <= Pow2(n)
  {
    if m < n {
      Pow2Mono(m, n - 1);
    }
  }

  lemma Pow2Small()
    ensures Pow2(1) == 2 && Pow2(2) == 4 && Pow2(3) == 8 && Pow2(4) == 16
    ensures Pow2(5) == 32 && Pow2(6) == 64 && Pow2(7) == 128 && Pow2(8) == 256
  {
    assert Pow2(4) == 16;
    assert Pow2(8) == 256;
  }

  lemma Pow2Words()
    ensures Pow2(16) == 0x1_0000 && Pow2(24) == 0x100_0000 && Pow2(32) == 0x1_0000_0000
  {
    assert Pow2(8) == 256;
    assert Pow2(16) == 0x1_0000;
    assert Pow2(24) == 0x100_0000;
  }

  // ---- The shift, mask and logic operators of C on non-negative numbers ----

  /** `a << k`, before any truncation. */
  function Shl(a: nat, k: nat): nat
  {
    if k == 0 then a else 2 * Shl(a, k - 1)
  }

  /** `a >> k`. */
  function Shr(a: nat, k: nat): nat
  {
    if k == 0 then a else Shr(a / 2, k - 1)
  }

  /** `a & ((1 << k) - 1)`: the low `k` bits. */
  function LowBits(a: nat, k: nat): (r: nat)
    ensures r < Pow2(k) && r <= a
  {
    if k == 0 then 0 else 2 * LowBits(a / 2, k - 1) + a % 2
  }

  /** The cast to `uint8_t`. */
  function ToByte(a: nat): Byte
  {
    Pow2Small();
    LowBits(a, 8)
  }

  /** `a | b`. */
  function Or(a: nat, b: nat): nat
  {
    if a == 0 && b == 0 then 0
    else 2 * Or(a / 2, b / 2) + (if a % 2 == 1 || b % 2 == 1 then 1 else 0)
  }

  /** `|` on bytes. */
  function OrByte(a: Byte, b: Byte): Byte
  {
    Pow2Small();
    OrBound(a, b, 8);
    Or(a, b)
  }

  lemma {:induction false} OrBound(a: nat, b: nat, n: nat)
    requires a < Pow2(n) && b < Pow2(n)
    ensures Or(a, b) < Pow2(n)
  {
    if n != 0 {
      OrBound(a / 2, b / 2, n - 1);
    }
  }

  /** `a & b`. */
  function And(a: nat, b: nat): (r: nat)
    ensures r <= b
  {
    if a == 0 || b == 0 then 0
    else 2 * And(a / 2, b / 2) + (if a % 2 == 1 && b % 2 == 1 then 1 else 0)
  }

  /** A mask of low ones keeps the low bits. */
  lemma {:induction false} AndMask(a: nat, k: nat)
    ensures And(a, Pow2(k) - 1) == LowBits(a, k)
  {
    if k != 0 {
      assert (Pow2(k) - 1) / 2 == Pow2(k - 1) - 1;
      AndMask(a / 2, k - 1);
    }
  }

  /** `a ^ b`. */
  function Xor(a: nat, b: nat): nat
  {
    if a == 0 && b == 0 then 0
    else 2 * Xor(a / 2, b / 2) + (if a % 2 != b % 2 then 1 else 0)
  }

  lemma {:induction false} ShlAdd(a: nat, b: nat, k: nat)
    ensures Shl(a + b, k) == Shl(a, k) + Shl(b, k)
  {
    if k != 0 {
      ShlAdd(a, b, k - 1);
    }
  }

  lemma {:induction false} ShlTwice(a: nat, k: nat, m: nat)
    ensures Shl(Shl(a, m), k) == Shl(a, k + m)
  {
    if k != 0 {
      ShlTwice(a, k - 1, m);
    }
  }

  lemma {:induction false} ShlOne(k: nat)
    ensures Shl(1, k) == Pow2(k) && Shl(0, k) == 0
  {
    if k != 0 {
      ShlOne(k - 1);
    }
  }

  lemma {:induction false} ShlMul(a: nat, k: nat)
    ensures Shl(a, k) == Pow2(k) * a
  {
    if k != 0 {
      ShlMul(a, k - 1);
      assert 2 * (Pow2(k - 1) * a) == (2 * Pow2(k - 1)) * a;
    }
  }

  lemma Shl7(a: nat)
    ensures Shl(a, 7) == 128 * a
  {
    ShlMul(a, 7);
    Pow2Small();
  }

  lemma {:induction false} Pow2Shl(n: nat, k: nat)
    ensures Pow2(n + k) == Shl(Pow2(n), k)
  {
    if k != 0 {
      Pow2Shl(n, k - 1);
    }
  }

  lemma {:induction false} ShlBound(a: nat, n: nat, k: nat)
    requires a < Pow2(n)
    ensures Shl(a, k) < Pow2(n + k)
  {
    if k != 0 {
      ShlBound(a, n, k - 1);
    }
  }

  /** Comparing after shifting right is comparing with the value shifted left. */
  lemma {:induction false} ShrShl(m: nat, a: nat, k: nat)
    ensures Shr(m, k) < a <==> m < Shl(a, k)
  {
    if k != 0 {
      ShrShl(m / 2, a, k - 1);
    }
  }

  /** A number is its high bits, shifted back, plus its low bits. */
  lemma {:induction false} ShrLow(a: nat, k: nat)
    ensures a == Shl(Shr(a, k), k) + LowBits(a, k)
  {
    if k != 0 {
      ShrLow(a / 2, k - 1);
    }
  }

  lemma {:induction false} ShlShr(c: nat, b: nat, k: nat)
    requires b < Pow2(k)
    ensures Shr(Shl(c, k) + b, k) == c && LowBits(Shl(c, k) + b, k) == b
  {
    if k != 0 {
      assert (Shl(c, k) + b) / 2 == Shl(c, k - 1) + b / 2;
      ShlShr(c, b / 2, k - 1);
    }
  }

  lemma {:induction false} LowOfSmall(a: nat, k: nat)
    requires a < Pow2(k)
    ensures LowBits(a, k) == a
  {
    if k != 0 {
      LowOfSmall(a / 2, k - 1);
    }
  }

  /** The cast to `uint32_t` keeps the low 32 bits. */
  lemma LowWord(a: nat)
    ensures a % 0x1_0000_0000 == LowBits(a, 32)
  {
    hide Shl, Shr, LowBits, Pow2;
    ShrLow(a, 32);
    ShlMul(Shr(a, 32), 32);
    Pow2Words();
  }

  /** Masking twice keeps the fewer bits. */
  lemma {:induction false} LowOfLow(a: nat, k: nat, n: nat)
    requires k <= n
    ensures LowBits(LowBits(a, n), k) == LowBits(a, k)
  {
    if k != 0 {
      LowOfLow(a / 2, k - 1, n - 1);
    }
  }

  /** The `n` bits above bit `k` do not depend on anything higher. */
  lemma {:induction false} LowOfShr(a: nat, k: nat, n: nat)
    ensures LowBits(Shr(a, k), n) == Shr(LowBits(a, k + n), k)
  {
    if k != 0 {
      LowOfShr(a / 2, k - 1, n);
    }
  }

  lemma {:induction false} OrZero(a: nat)
    ensures Or(a, 0) == a
  {
    if a != 0 {
      OrZero(a / 2);
    }
  }

  /** Or-ing into low bits that are still clear adds. */
  lemma {:induction false} OrDisjoint(c: nat, b: nat, k: nat)
    requires b < Pow2(k)
    ensures Or(Shl(c, k), b) == Shl(c, k) + b
  {
    if k == 0 {
      OrZero(c);
    } else {
      OrDisjoint(c, b / 2, k - 1);
    }
  }

  // ---- Bit strings ----

  /** The number a bit string denotes. */
  function Val(bits: BitString): (v: nat)
    ensures v < Pow2(|bits|)
  {
    if bits == [] then 0
    else 2 * Val(bits[..|bits| - 1]) + (if bits[|bits| - 1] then 1 else 0)
  }

  lemma {:induction false} ValConcat(a: BitString, b: BitString)
    ensures Val(a + b) == Shl(Val(a), |b|) + Val(b)
  {
    if b == [] {
      assert a + b == a;
    } else {
      var b' := b[..|b| - 1];
      assert (a + b)[..|a + b| - 1] == a + b';
      ValConcat(a, b');
    }
  }

  /** Equal length and equal value make equal bit strings. */
  lemma {:induction false} ValInjective(a: BitString, b: BitString)
    requires |a| == |b| && Val(a) == Val(b)
    ensures a == b
  {
    if a != [] {
      ValInjective(a[..|a| - 1], b[..|b| - 1]);
      assert a == a[..|a| - 1] + [a[|a| - 1]] && b == b[..|b| - 1] + [b[|b| - 1]];
    }
  }

  function Zeros(n: nat): BitString { seq(n, _ => false) }

  function Ones(n: nat): BitString { seq(n, _ => true) }

  lemma {:induction false} ValZeros(n: nat)
    ensures Val(Zeros(n)) == 0
  {
    if n != 0 {
      assert Zeros(n)[..n - 1] == Zeros(n - 1);
      ValZeros(n - 1);
    }
  }

  /** The high bits of a value are the value of the leading bits, the low bits of the rest. */
  lemma ValSplit(hi: BitString, lo: BitString)
    ensures Shr(Val(hi + lo), |lo|) == Val(hi)
    ensures LowBits(Val(hi + lo), |lo|) == Val(lo)
  {
    ValConcat(hi, lo);
    ShlShr(Val(hi), Val(lo), |lo|);
  }

  /** The low `n` bits of `v`, most significant first. */
  function BitsOf(v: nat, n: nat): (bits: BitString)
    ensures |bits| == n
  {
    if n == 0 then [] else BitsOf(v / 2, n - 1) + [v % 2 == 1]
  }

  lemma {:induction false} ValBitsOf(v: nat, n: nat)
    requires v < Pow2(n)
    ensures Val(BitsOf(v, n)) == v
  {
    if n != 0 {
      assert BitsOf(v, n)[..n - 1] == BitsOf(v / 2, n - 1);
      ValBitsOf(v / 2, n - 1);
    }
  }

  lemma BitsOfVal(bits: BitString)
    ensures BitsOf(Val(bits), |bits|) == bits
  {
    ValBitsOf(Val(bits), |bits|);
    ValInjective(BitsOf(Val(bits), |bits|), bits);
  }

  /** The bits of a byte string, in order. */
  function BytesToBits(bs: Bytes): (bits: BitString)
    ensures |bits| == 8 * |bs|
  {
    if bs == [] then [] else BitsOf(bs[0], 8) + BytesToBits(bs[1..])
  }

  lemma {:induction false} BytesToBitsConcat(a: Bytes, b: Bytes)
    ensures BytesToBits(a + b) == BytesToBits(a) + BytesToBits(b)
  {
    hide BitsOf;
    if a == [] {
      assert a + b == b;
    } else {
      assert (a + b)[1..] == a[1..] + b;
      BytesToBitsConcat(a[1..], b);
      assert BytesToBits(a) == BitsOf(a[0], 8) + BytesToBits(a[1..]);
    }
  }
}
