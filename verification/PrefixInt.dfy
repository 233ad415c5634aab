/** Prefix integers of HPACK, section 5.1 of RFC 7541, and their resumable decoder. */
module PrefixInt {
  import opened Bits

  // ---- Encoding ----

  /** The largest value that fits the prefix, less one: the escape that announces more bytes. */
  function Mask(prefix: nat): (k: nat)
    requires 1 <= prefix <= 7
    ensures 1 <= k <= 127 && k + 1 == Pow2(prefix)
  {
    Pow2Small();
    Pow2Mono(1, prefix);
    Pow2Mono(prefix, 7);
    Pow2(prefix) - 1
  }

  /** `first & ~k`: the flag bits above the prefix. */
  function ClearLow(first: Byte, prefix: nat): (r: nat)
    requires 1 <= prefix <= 7
    ensures r <= first && r + Mask(prefix) <= 255
  {
    FlagRoom(Shr(first, prefix), first, prefix);
    ShrLow(first, prefix);
    first - LowBits(first, prefix)
  }

  lemma {:induction false} FlagRoom(q: nat, b: nat, prefix: nat)
    requires prefix <= 8 && q == Shr(b, prefix) && b < 256
    ensures Shl(q, prefix) + Pow2(prefix) <= 256
  {
    Pow2Small();
    ShrLow(b, prefix);
    if Shl(q, prefix) + Pow2(prefix) > 256 {
      ShlAdd(q, 1, prefix);
      ShlOne(prefix);
      TopGap(q + 1, prefix, 8);
    }
  }

  /** A multiple of `2^k` above `2^n` is at least `2^n + 2^k`. */
  lemma {:induction false} TopGap(q: nat, k: nat, n: nat)
    requires k <= n && Shl(q, k) > Pow2(n)
    ensures Shl(q, k) >= Pow2(n) + Pow2(k)
  {
    if k != 0 {
      TopGap(q, k - 1, n - 1);
    }
  }

  /** The continuation bytes of an integer: seven bits a byte, least significant group first. */
  function Tail(n: nat): (s: Bytes)
    ensures |s| >= 1
  {
    if n < 128 then [n] else [128 + n % 128] + Tail(n / 128)
  }

  /** The encoding of `n` behind the flag bits of `first`, whose low `prefix` bits are overwritten. */
  function Encoded(first: Byte, n: nat, prefix: nat): (s: Bytes)
    requires 1 <= prefix <= 7
    ensures |s| >= 1
  {
    var k := Mask(prefix);
    if n < k then [ClearLow(first, prefix) + n] else [ClearLow(first, prefix) + k] + Tail(n - k)
  }

  /** How many bytes the encoding takes; the flag bits do not matter. */
  function EncodedLength(n: nat, prefix: nat): (len: nat)
    requires 1 <= prefix <= 7
    ensures forall first: Byte :: |Encoded(first, n, prefix)| == len
  {
    if n < Mask(prefix) then 1 else 1 + |Tail(n - Mask(prefix))|
  }

  method CountEncodedLength(n0: nat, prefix: nat) returns (len: nat)
    requires 1 <= prefix <= 7
    ensures len == EncodedLength(n0, prefix)
  {
    var k := Mask(prefix);
    var n: nat := n0;
    len := 0;
    if n < k {
      return 1;
    }
    n := n - k;
    len := len + 1;
    while n >= 128
      invariant len + |Tail(n)| == 1 + |Tail(n0 - k)|
    {
      n := n / 128;
      len := len + 1;
    }
    len := len + 1;
  }

  /** Writes the encoding of `n0` over the start of `buf`, whose first byte already holds the flags. */
  method EncodeLength(buf: array<Byte>, n0: nat, prefix: nat) returns (len: nat)
    requires 1 <= prefix <= 7
    requires EncodedLength(n0, prefix) <= buf.Length
    modifies buf
    ensures len == EncodedLength(n0, prefix)
    ensures buf[..len] == Encoded(old(buf[0]), n0, prefix)
  {
    var k := Mask(prefix);
    ghost var goal := Encoded(buf[0], n0, prefix);
    var first := buf[0];
    buf[0] := ClearLow(buf[0], prefix);
    OrLow(first, if n0 < k then n0 else k, prefix);
    if n0 < k {
      buf[0] := Or(buf[0], n0);
      return 1;
    }
    buf[0] := Or(buf[0], k);
    len := 1;
    var n: nat := n0 - k;
    while n >= 128
      invariant 1 <= len <= |goal| <= buf.Length
      invariant goal[len..] == Tail(n)
      invariant forall i :: 0 <= i < len ==> buf[i] == goal[i]
    {
      OrContinuation(n);
      assert goal[len] == goal[len..][0] && goal[len + 1..] == goal[len..][1..];
      buf[len] := Or(128, n % 128);
      len, n := len + 1, n / 128;
    }
    assert goal[len] == goal[len..][0];
    buf[len] := n;
    len := len + 1;
  }

  lemma OrContinuation(n: nat)
    requires n >= 128
    ensures Or(128, n % 128) == 128 + n % 128
    ensures Tail(n) == [128 + n % 128] + Tail(n / 128)
  {
    Pow2Small();
    ShlOne(7);
    OrDisjoint(1, n % 128, 7);
  }

  lemma OrLow(first: Byte, n: nat, prefix: nat)
    requires 1 <= prefix <= 7 && n <= Mask(prefix)
    ensures Or(ClearLow(first, prefix), n) == ClearLow(first, prefix) + n
  {
    ShrLow(first, prefix);
    OrDisjoint(Shr(first, prefix), n, prefix);
  }

  lemma LowOfCleared(first: Byte, n: nat, prefix: nat)
    requires 1 <= prefix <= 7 && n <= Mask(prefix)
    ensures LowBits(ClearLow(first, prefix) + n, prefix) == n
    ensures Shr(ClearLow(first, prefix) + n, prefix) == Shr(first, prefix)
  {
    ShrLow(first, prefix);
    ShlShr(Shr(first, prefix), n, prefix);
  }

  /** Writing the integer leaves the flag bits of the first byte alone. */
  lemma FlagsUntouched(first: Byte, n: nat, prefix: nat)
    requires 1 <= prefix <= 7
    ensures Shr(Encoded(first, n, prefix)[0], prefix) == Shr(first, prefix)
  {
    LowOfCleared(first, if n < Mask(prefix) then n else Mask(prefix), prefix);
  }

  // ---- Decoding ----

  datatype Outcome =
    | Complete(value: nat, used: nat, shift: nat) // the integer ended after `used` bytes, the last group shifted by `shift`
    | Incomplete(value: nat, shift: nat)          // the input ended first
    | Overflow                                    // the value does not fit 32 bits
    | Undefined                                   // a sixth continuation byte: C leaves the shift undefined

  /** The same outcome seen from `k` bytes further back. */
  function Plus(o: Outcome, k: nat): Outcome
  {
    if o.Complete? then o.(used := o.used + k) else o
  }

  /** Decodes continuation bytes on top of `n`, the next group weighing `2^shift`. */
  function Continue(n: nat, shift: nat, s: Bytes): (o: Outcome)
    ensures o.Complete? ==> 1 <= o.used <= |s| && n <= o.value
    ensures o.Complete? && n <= UINT32_MAX ==> o.value <= UINT32_MAX
    ensures o.Incomplete? ==> n <= o.value
    ensures o.Incomplete? && n <= UINT32_MAX ==> o.value <= UINT32_MAX
    decreases |s|
  {
    if s == [] then Incomplete(n, shift)
    else if shift >= 32 then Undefined
    else
      var add := s[0] % 128;
      if Shr(UINT32_MAX, shift) < add then Overflow
      else if UINT32_MAX - n < Shl(add, shift) then Overflow
      else if s[0] < 128 then Complete(n + Shl(add, shift), 1, shift)
      else Plus(Continue(n + Shl(add, shift), shift + 7, s[1..]), 1)
  }

  /** Decodes from the first byte of an integer. */
  function Decode(s: Bytes, prefix: nat): (o: Outcome)
    requires 1 <= prefix <= 7 && s != []
    ensures o.Complete? ==> 1 <= o.used <= |s| && o.value <= UINT32_MAX
    ensures o.Incomplete? ==> 0 < o.value <= UINT32_MAX
  {
    if LowBits(s[0], prefix) != Mask(prefix) then Complete(LowBits(s[0], prefix), 1, 0)
    else Plus(Continue(Mask(prefix), 0, s[1..]), 1)
  }

  /** Decodes `s` on top of what earlier pieces left; a zero value means nothing was read yet. */
  function Resume(initial: nat, shift: nat, s: Bytes, prefix: nat): (o: Outcome)
    requires 1 <= prefix <= 7 && s != [] && initial <= UINT32_MAX
    ensures o.Complete? ==> 1 <= o.used <= |s| && o.value <= UINT32_MAX && initial <= o.value
    ensures o.Incomplete? ==> 0 < o.value <= UINT32_MAX && initial <= o.value
  {
    if initial == 0 then Decode(s, prefix) else Continue(initial, shift, s)
  }

  /**
   * `decode_length`: reads `s[from..]` as far as the integer goes, and reports how many bytes it
   * read, whether the integer ended, and the shift the next call has to go on with.
   */
  method DecodeLength(initial: nat, shift0: nat, s: Bytes, from: nat, prefix: nat)
    returns (ok: bool, res: nat, shift: nat, fin: bool, read: nat)
    requires 1 <= prefix <= 7 && from < |s| && initial <= UINT32_MAX
    requires initial == 0 ==> shift0 == 0
    requires Resume(initial, shift0, s[from..], prefix) != Undefined
    ensures !ok <==> Resume(initial, shift0, s[from..], prefix) == Overflow
    ensures ok && fin ==> Resume(initial, shift0, s[from..], prefix) == Complete(res, read, shift)
    ensures ok && !fin ==> Resume(initial, shift0, s[from..], prefix) == Incomplete(res, shift)
    ensures ok && !fin ==> read == |s| - from
  {
    var k := Mask(prefix);
    var n: nat := initial;
    var i: nat := from;
    ghost var goal := Resume(initial, shift0, s[from..], prefix);
    if n == 0 {
      if LowBits(s[i], prefix) != k {
        return true, LowBits(s[i], prefix), 0, true, 1;
      }
      n := k;
      i := i + 1;
      assert s[from..][1..] == s[i..];
      if i == |s| {
        return true, n, 0, false, i - from;
      }
    }
    var sh: nat := shift0;
    while i != |s|
      invariant from <= i <= |s|
      invariant n <= UINT32_MAX
      invariant goal == Plus(Continue(n, sh, s[i..]), i - from)
    {
      assert s[i..][1..] == s[i + 1..];
      var add: nat := s[i] % 128;
      if Shr(UINT32_MAX, sh) < add {
        return false, 0, 0, false, 0;
      }
      add := Shl(add, sh);
      if UINT32_MAX - add < n {
        return false, 0, 0, false, 0;
      }
      n := n + add;
      if s[i] < 128 {
        return true, n, sh, true, i + 1 - from;
      }
      i, sh := i + 1, sh + 7;
    }
    return true, n, sh, false, i - from;
  }

  // ---- Round trip and split independence ----

  /** A split of the input changes nothing: the second piece goes on where the first stopped. */
  lemma {:induction false} ContinueSplit(n: nat, shift: nat, a: Bytes, b: Bytes)
    ensures Continue(n, shift, a + b) ==
            var o := Continue(n, shift, a);
            if o.Incomplete? then Plus(Continue(o.value, o.shift, b), |a|) else o
    decreases |a|
  {
    if a == [] {
      assert a + b == b;
    } else {
      assert (a + b)[1..] == a[1..] + b;
      ContinueSplit(n + Shl(a[0] % 128, shift), shift + 7, a[1..], b);
    }
  }

  lemma DecodeSplit(a: Bytes, b: Bytes, prefix: nat)
    requires 1 <= prefix <= 7 && a != []
    ensures Decode(a + b, prefix) ==
            var o := Decode(a, prefix);
            if o.Incomplete? then Plus(Continue(o.value, o.shift, b), |a|) else o
  {
    assert (a + b)[1..] == a[1..] + b;
    ContinueSplit(Mask(prefix), 0, a[1..], b);
  }

  /** Reading byte by byte: an integer that goes on after its first byte is continued from there. */
  lemma ResumeStep(initial: nat, shift: nat, s: Bytes, prefix: nat)
    requires 1 <= prefix <= 7 && s != [] && initial <= UINT32_MAX
    ensures Resume(initial, shift, s, prefix) ==
            var o := Resume(initial, shift, [s[0]], prefix);
            if o.Incomplete? then Plus(Continue(o.value, o.shift, s[1..]), 1) else o
  {
    assert s == [s[0]] + s[1..];
    if initial == 0 {
      DecodeSplit([s[0]], s[1..], prefix);
    } else {
      ContinueSplit(initial, shift, [s[0]], s[1..]);
    }
  }

  /** The bytes of a complete integer decode to it alone. */
  lemma ResumeUsed(initial: nat, shift: nat, s: Bytes, prefix: nat)
    requires 1 <= prefix <= 7 && s != [] && initial <= UINT32_MAX
    ensures var o := Resume(initial, shift, s, prefix);
            o.Complete? ==> Resume(initial, shift, s[..o.used], prefix) == o
  {
    var o := Resume(initial, shift, s, prefix);
    if o.Complete? {
      assert s == s[..o.used] + s[o.used..];
      if initial == 0 {
        DecodeSplit(s[..o.used], s[o.used..], prefix);
      } else {
        ContinueSplit(initial, shift, s[..o.used], s[o.used..]);
      }
    }
  }

  /** The number a run of continuation bytes denotes, whatever its size. */
  function TailValue(s: Bytes): nat
  {
    if s == [] then 0 else s[0] % 128 + 128 * TailValue(s[1..])
  }

  /** Every byte but the last announces another one. */
  predicate IsTail(s: Bytes)
  {
    s != [] && if |s| == 1 then s[0] < 128 else s[0] >= 128 && IsTail(s[1..])
  }

  lemma {:induction false} TailIsTail(n: nat)
    ensures IsTail(Tail(n)) && TailValue(Tail(n)) == n
  {
    if n >= 128 {
      TailIsTail(n / 128);
      assert Tail(n)[1..] == Tail(n / 128);
    } else {
      assert Tail(n)[1..] == [];
    }
  }

  /**
   * The two guards of the decoder are exact: for every run of at most five continuation bytes it
   * reports overflow if and only if the mathematical value exceeds 32 bits.
   */
  lemma {:induction false} ContinueExact(n: nat, shift: nat, s: Bytes, rest: Bytes)
    requires IsTail(s) && shift + 7 * |s| <= 35 && n <= UINT32_MAX
    ensures Continue(n, shift, s + rest) ==
            if n + Shl(TailValue(s), shift) <= UINT32_MAX
            then Complete(n + Shl(TailValue(s), shift), |s|, shift + 7 * (|s| - 1)) else Overflow
    decreases |s|
  {
    var add := s[0] % 128;
    var s' := s[1..];
    assert (s + rest)[1..] == s' + rest;
    ShrShl(UINT32_MAX, add, shift);
    ShlAdd(add, 128 * TailValue(s'), shift);
    ShlTwice(TailValue(s'), shift, 7);
    Shl7(TailValue(s'));
    if s[0] < 128 {
      assert s' == [];
      ShlOne(shift);
    } else if n + Shl(add, shift) <= UINT32_MAX {
      ContinueExact(n + Shl(add, shift), shift + 7, s', rest);
    }
  }

  lemma {:induction false} TailShortest(s: Bytes)
    requires IsTail(s)
    ensures |Tail(TailValue(s))| <= |s|
  {
    if |s| > 1 {
      TailShortest(s[1..]);
      assert TailValue(s) / 128 == TailValue(s[1..]);
    }
  }

  /** What the decoder reads is a run of continuation bytes, and its value that of the run. */
  lemma {:induction false} ContinueReads(n: nat, shift: nat, s: Bytes)
    requires Continue(n, shift, s).Complete?
    ensures var o := Continue(n, shift, s);
            IsTail(s[..o.used]) && o.value == n + Shl(TailValue(s[..o.used]), shift)
    decreases |s|
  {
    var o := Continue(n, shift, s);
    var t := s[..o.used];
    var add := s[0] % 128;
    assert t[0] == s[0];
    ShlAdd(add, 128 * TailValue(t[1..]), shift);
    ShlTwice(TailValue(t[1..]), shift, 7);
    Shl7(TailValue(t[1..]));
    if s[0] < 128 {
      assert t[1..] == [];
      ShlOne(shift);
    } else {
      ContinueReads(n + Shl(add, shift), shift + 7, s[1..]);
      assert t[1..] == s[1..][..o.used - 1];
    }
  }

  /** No input that decodes to an integer takes fewer bytes than its encoding. */
  lemma Shortest(s: Bytes, prefix: nat)
    requires 1 <= prefix <= 7 && s != [] && Decode(s, prefix).Complete?
    ensures EncodedLength(Decode(s, prefix).value, prefix) <= Decode(s, prefix).used
  {
    if LowBits(s[0], prefix) == Mask(prefix) {
      var o := Continue(Mask(prefix), 0, s[1..]);
      ContinueReads(Mask(prefix), 0, s[1..]);
      TailShortest(s[1..][..o.used]);
    }
  }

  lemma {:induction false} TailLength(n: nat, groups: nat)
    requires groups >= 1 && n < Pow2(7 * groups)
    ensures |Tail(n)| <= groups
    decreases groups
  {
    Pow2Small();
    if n >= 128 && groups > 1 {
      var m := 7 * (groups - 1);
      Pow2Shl(m, 7);
      Shl7(Pow2(m));
      TailLength(n / 128, groups - 1);
    }
  }

  lemma {:induction false} TailGrows(m: nat, n: nat)
    requires m <= n
    ensures |Tail(m)| <= |Tail(n)|
    decreases n
  {
    if m >= 128 {
      TailGrows(m / 128, n / 128);
    }
  }

  /** A 32-bit integer needs at most five continuation bytes. */
  lemma TailShort(n: nat)
    requires n <= UINT32_MAX
    ensures |Tail(n)| <= 5
  {
    Pow2Words();
    Pow2Mono(32, 35);
    TailLength(n, 5);
  }

  /** The weight of the last group of an encoding. */
  function LastShift(n: nat, prefix: nat): nat
    requires 1 <= prefix <= 7
  {
    if EncodedLength(n, prefix) == 1 then 0 else 7 * (EncodedLength(n, prefix) - 2)
  }

  /** Every 32-bit integer decodes to itself, whatever follows it. */
  lemma RoundTrip(first: Byte, n: nat, prefix: nat, rest: Bytes)
    requires 1 <= prefix <= 7 && n <= UINT32_MAX
    ensures Decode(Encoded(first, n, prefix) + rest, prefix) == Complete(n, EncodedLength(n, prefix), LastShift(n, prefix))
  {
    var k := Mask(prefix);
    var e := Encoded(first, n, prefix);
    assert (e + rest)[0] == e[0];
    LowOfCleared(first, if n < k then n else k, prefix);
    if n >= k {
      var t := Tail(n - k);
      assert (e + rest)[1..] == t + rest;
      TailIsTail(n - k);
      TailShort(n - k);
      ContinueExact(k, 0, t, rest);
    }
  }

  /** Decoding in two pieces gives the same integer as decoding in one. */
  lemma RoundTripSplit(first: Byte, n: nat, prefix: nat, a: Bytes, b: Bytes)
    requires 1 <= prefix <= 7 && n <= UINT32_MAX
    requires a != [] && b != [] && a + b == Encoded(first, n, prefix)
    ensures var o := Decode(a, prefix);
            o.Incomplete? && Resume(o.value, o.shift, b, prefix) == Complete(n, |b|, LastShift(n, prefix))
  {
    RoundTrip(first, n, prefix, []);
    assert a + b + [] == a + b;
    DecodeSplit(a, b, prefix);
  }
}
