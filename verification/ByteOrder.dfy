/** Numbers as bytes in memory, on a little-endian host, and on the network. */
module ByteOrder {
  import opened Bits

  /** The number whose bytes in memory are `s`. */
  function Load(s: Bytes): nat
  {
    if s == [] then 0 else s[0] + Shl(Load(s[1..]), 8)
  }

  /** The bytes in memory of a number of `k` bytes. */
  function Store(n: nat, k: nat): (s: Bytes)
    ensures |s| == k
    decreases k
  {
    if k == 0 then [] else [ToByte(n)] + Store(Shr(n, 8), k - 1)
  }

  /** The number a byte string denotes on the network. */
  function FromNet(s: Bytes): nat
  {
    if s == [] then 0 else Shl(FromNet(s[..|s| - 1]), 8) + s[|s| - 1]
  }

  /** A number of `k` bytes as it goes over the network. */
  function ToNet(n: nat, k: nat): (s: Bytes)
    ensures |s| == k
    decreases k
  {
    if k == 0 then [] else ToNet(Shr(n, 8), k - 1) + [ToByte(n)]
  }

  // ---- Bounds, and each the inverse of the other ----

  lemma ByteBound(b: Byte)
    ensures b < Pow2(8) && ToByte(b) == b
  {
    Pow2Small();
    LowOfSmall(b, 8);
  }

  lemma ShrBound(n: nat, m: nat)
    requires n < Pow2(m + 8)
    ensures Shr(n, 8) < Pow2(m)
  {
    ShrShl(n, Pow2(m), 8);
    Pow2Shl(m, 8);
  }

  lemma {:induction false} LoadBound(s: Bytes)
    ensures Load(s) < Pow2(8 * |s|)
  {
    if s != [] {
      LoadBound(s[1..]);
      AddBelow(Load(s[1..]), s[0], 8 * |s| - 8);
    }
  }

  lemma AddBelow(hi: nat, b: Byte, m: nat)
    requires hi < Pow2(m)
    ensures Shl(hi, 8) + b < Pow2(m + 8)
  {
    Pow2Small();
    ShlMul(hi, 8);
    Pow2Shl(m, 8);
    ShlMul(Pow2(m), 8);
  }

  lemma {:induction false} StoreLoad(s: Bytes)
    ensures Store(Load(s), |s|) == s
  {
    if s != [] {
      ByteBound(s[0]);
      ShlShr(Load(s[1..]), s[0], 8);
      StoreLoad(s[1..]);
    }
  }

  lemma {:induction false} FromToNet(n: nat, k: nat)
    requires n < Pow2(8 * k)
    ensures FromNet(ToNet(n, k)) == n
    decreases k
  {
    if k > 0 {
      ShrBound(n, 8 * k - 8);
      FromToNet(Shr(n, 8), k - 1);
      ShrLow(n, 8);
      assert ToNet(n, k)[..k - 1] == ToNet(Shr(n, 8), k - 1);
    }
  }

  lemma {:induction false} FromNetBound(s: Bytes)
    ensures FromNet(s) < Pow2(8 * |s|)
  {
    if s != [] {
      FromNetBound(s[..|s| - 1]);
      AddBelow(FromNet(s[..|s| - 1]), s[|s| - 1], 8 * |s| - 8);
    }
  }

  // ---- Longer numbers from shorter ones ----

  lemma {:induction false} LoadConcat(a: Bytes, b: Bytes)
    ensures Load(a + b) == Load(a) + Shl(Load(b), 8 * |a|)
    decreases |a|
  {
    if a == [] {
      assert a + b == b;
    } else {
      assert (a + b)[1..] == a[1..] + b;
      LoadConcat(a[1..], b);
      ShlAdd(Load(a[1..]), Shl(Load(b), 8 * |a| - 8), 8);
      ShlTwice(Load(b), 8, 8 * |a| - 8);
    }
  }

  lemma {:induction false} FromNetConcat(a: Bytes, b: Bytes)
    ensures FromNet(a + b) == Shl(FromNet(a), 8 * |b|) + FromNet(b)
    decreases |b|
  {
    if b == [] {
      assert a + b == a;
    } else {
      assert (a + b)[..|a + b| - 1] == a + b[..|b| - 1];
      FromNetConcat(a, b[..|b| - 1]);
      ShlAdd(Shl(FromNet(a), 8 * |b| - 8), FromNet(b[..|b| - 1]), 8);
      ShlTwice(FromNet(a), 8, 8 * |b| - 8);
    }
  }

  /** The bytes of a number on the network are those of its halves. */
  lemma {:induction false} ToNetConcat(n: nat, j: nat, k: nat)
    ensures ToNet(n, j + k) == ToNet(Shr(n, 8 * k), j) + ToNet(n, k)
    decreases k
  {
    if k > 0 {
      ToNetConcat(Shr(n, 8), j, k - 1);
      ShrTwice(n, 8, 8 * k - 8);
      assert ToNet(n, j + k) == ToNet(Shr(Shr(n, 8), 8 * (k - 1)), j) + ToNet(Shr(n, 8), k - 1) + [ToByte(n)];
    } else {
      assert ToNet(n, 0) == [];
    }
  }

  lemma {:induction false} ShrTwice(n: nat, j: nat, k: nat)
    ensures Shr(Shr(n, j), k) == Shr(n, j + k)
  {
    if j > 0 {
      ShrTwice(n / 2, j - 1, k);
    }
  }

  /** The low bits of a number are enough for its low bytes. */
  lemma {:induction false} ToNetLow(n: nat, k: nat)
    ensures ToNet(LowBits(n, 8 * k), k) == ToNet(n, k)
    decreases k
  {
    if k > 0 {
      LowOfLow(n, 8, 8 * k);
      LowOfShr(n, 8, 8 * k - 8);
      ToNetLow(Shr(n, 8), k - 1);
    }
  }

  // ---- Exclusive or, byte by byte ----

  function XorByte(a: Byte, b: Byte): Byte
  {
    ByteBound(a);
    ByteBound(b);
    XorBound(a, b, 8);
    Pow2Small();
    Xor(a, b)
  }

  lemma {:induction false} XorBound(a: nat, b: nat, n: nat)
    requires a < Pow2(n) && b < Pow2(n)
    ensures Xor(a, b) < Pow2(n)
  {
    if n != 0 {
      XorBound(a / 2, b / 2, n - 1);
    }
  }

  lemma XorStep(a: nat, b: nat)
    ensures Xor(a, b) == 2 * Xor(a / 2, b / 2) + if a % 2 != b % 2 then 1 else 0
  {
    assert Xor(0, 0) == 0;
  }

  lemma {:induction false} XorTwice(a: nat, b: nat)
    ensures Xor(Xor(a, b), b) == a
  {
    XorStep(a, b);
    XorStep(Xor(a, b), b);
    if a != 0 || b != 0 {
      hide Xor;
      XorTwice(a / 2, b / 2);
    }
  }

  lemma {:induction false} XorShl(a1: nat, a0: nat, b1: nat, b0: nat, k: nat)
    requires a0 < Pow2(k) && b0 < Pow2(k)
    ensures Xor(a0 + Shl(a1, k), b0 + Shl(b1, k)) == Xor(a0, b0) + Shl(Xor(a1, b1), k)
  {
    if k == 0 {
      assert Xor(0, 0) == 0;
    } else {
      assert (a0 + Shl(a1, k)) / 2 == a0 / 2 + Shl(a1, k - 1);
      assert (b0 + Shl(b1, k)) / 2 == b0 / 2 + Shl(b1, k - 1);
      XorShl(a1, a0 / 2, b1, b0 / 2, k - 1);
    }
  }

  function XorBytes(a: Bytes, b: Bytes): (r: Bytes)
    requires |a| == |b|
    ensures |r| == |a| && forall i :: 0 <= i < |a| ==> r[i] == XorByte(a[i], b[i])
  {
    seq(|a|, i requires 0 <= i < |a| => XorByte(a[i], b[i]))
  }

  /** One operation on a word is that operation on each of its bytes. */
  lemma {:induction false} XorWords(a: Bytes, b: Bytes)
    requires |a| == |b|
    ensures Xor(Load(a), Load(b)) == Load(XorBytes(a, b))
    decreases |a|
  {
    hide Xor;
    if a == [] {
      XorNothing();
    } else {
      ByteBound(a[0]);
      ByteBound(b[0]);
      XorShl(Load(a[1..]), a[0], Load(b[1..]), b[0], 8);
      XorWords(a[1..], b[1..]);
      assert XorBytes(a, b)[1..] == XorBytes(a[1..], b[1..]);
    }
  }

  lemma XorNothing()
    ensures Xor(0, 0) == 0
  {
  }
}
