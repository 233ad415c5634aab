/** The ring buffer that holds the dynamic table. */
module RingBuffers {
  import opened Bits
  import opened HeaderTable

  /** `nghttp2_hd_entry`: a header in the dynamic table, linked into a bucket of the encoder's hash map. */
  class Entry {
    const field: Field
    const token: int
    const seqno: nat // `seq`, a `uint32_t`
    const hash: nat
    var next: Entry?

    constructor (field: Field, token: int, seqno: nat, hash: nat)
      ensures this.field == field && this.token == token && this.seqno == seqno && this.hash == hash && next == null
    {
      this.field, this.token, this.seqno, this.hash, next := field, token, seqno, hash, null;
    }
  }

  // ---- Index arithmetic ----

  const SIZE_T: nat := 0x1_0000_0000_0000_0000

  /** A `size_t` result. */
  function SizeT(x: int): nat
  {
    x % SIZE_T
  }

  /** Position `i` counted from slot `f` of a ring of `n` slots. */
  function Slot(f: nat, n: nat, i: nat): (r: nat)
    requires f < n && i < n
    ensures r < n
  {
    if f + i < n then f + i else f + i - n
  }

  lemma SlotStep(f': nat, f: nat, n: nat, i: nat)
    requires f < n && i + 1 < n && f' == if f == 0 then n - 1 else f - 1
    ensures Slot(f', n, i + 1) == Slot(f, n, i) != f'
  {
  }

  /** Adding to a word moves its low bits around the ring. */
  lemma LowOfSum(a: nat, i: nat, k: nat)
    requires i < Pow2(k)
    ensures LowBits(a + i, k) == Slot(LowBits(a, k), Pow2(k), i)
  {
    var q, low := Shr(a, k), LowBits(a, k);
    ShrLow(a, k);
    if low + i < Pow2(k) {
      ShlShr(q, low + i, k);
    } else {
      ShlAdd(q, 1, k);
      ShlOne(k);
      ShlShr(q + 1, low + i - Pow2(k), k);
    }
  }

  lemma {:induction false} LowOfOnes(w: nat, k: nat)
    requires k <= w
    ensures LowBits(Pow2(w) - 1, k) == Pow2(k) - 1
  {
    if k != 0 {
      assert (Pow2(w) - 1) / 2 == Pow2(w - 1) - 1;
      LowOfOnes(w - 1, k - 1);
    }
  }

  lemma SizeTPower()
    ensures Pow2(64) == SIZE_T && Pow2(63) == SIZE_T / 2
  {
    Pow2Words();
    assert Pow2(40) == 0x100_0000_0000;
    assert Pow2(48) == 0x1_0000_0000_0000;
    assert Pow2(56) == 0x100_0000_0000_0000;
  }

  lemma LowSizeT(x: nat, w: nat)
    requires w == 64
    ensures SizeT(x) == LowBits(x, w)
  {
    SizeTPower();
    ShrLow(x, w);
    ShlMul(Shr(x, w), w);
  }

  /** The index computations of the ring buffer, wrapping sums and underflow included. */
  lemma SlotOf(first: nat, i: nat, k: nat)
    requires k <= 64 && i < Pow2(k)
    ensures LowBits(SizeT(first + i), k) == Slot(LowBits(first, k), Pow2(k), i)
  {
    LowSizeT(first + i, 64);
    LowOfLow(first + i, k, 64);
    LowOfSum(first, i, k);
  }

  lemma SlotBefore(first: nat, k: nat)
    requires k <= 64 && first < SIZE_T
    ensures var f := LowBits(first, k);
            LowBits(SizeT(first - 1), k) == if f == 0 then Pow2(k) - 1 else f - 1
  {
    SizeTPower();
    if first == 0 {
      LowOfOnes(64, k);
      LowOfSmall(0, k);
    } else if Pow2(k) > 1 {
      LowOfSum(first - 1, 1, k);
    }
  }

  /** From slot `f` on, the ring holds these entries. */
  ghost predicate Holds(ring: seq<Entry?>, f: nat, entries: seq<Entry>)
    requires f < |ring| && |entries| <= |ring|
  {
    forall i :: 0 <= i < |entries| ==> ring[Slot(f, |ring|, i)] == entries[i]
  }

  /** The slot before the first is free to take one more entry in front. */
  lemma HoldsInFront(ring: seq<Entry?>, ring': seq<Entry?>, f: nat, f': nat, entries: seq<Entry>, e: Entry)
    requires f < |ring| && |entries| < |ring| && Holds(ring, f, entries)
    requires f' == (if f == 0 then |ring| - 1 else f - 1) && ring' == ring[f' := e]
    ensures Holds(ring', f', [e] + entries)
  {
    forall i: nat | i <= |entries|
      ensures ring'[Slot(f', |ring|, i)] == ([e] + entries)[i]
    {
      if i > 0 {
        SlotStep(f', f, |ring|, i - 1);
      }
    }
  }

  /** `hd_ringbuf`: a deque in a buffer whose size is a power of two. */
  class RingBuffer {
    var buffer: array<Entry?>
    var mask: nat
    var first: nat
    var len: nat
    ghost var bits: nat           // the logarithm of the size
    ghost var contents: seq<Entry> // newest first

    ghost predicate Valid()
      reads this, buffer
    {
      && bits <= 63 && mask + 1 == Pow2(bits) == buffer.Length && first < SIZE_T
      && |contents| == len <= mask + 1 && Holds(buffer[..], LowBits(first, bits), contents)
    }

    constructor (bufsize: nat)
      requires bufsize <= SIZE_T / 2
      ensures Valid() && contents == [] && fresh(buffer)
    {
      var size, k := PowerFor(bufsize);
      buffer, mask, first, len := new Entry?[size](_ => null), size - 1, 0, 0;
      bits, contents := k, [];
    }

    /** `hd_ringbuf_get` */
    method Get(idx: nat) returns (e: Entry)
      requires Valid() && idx < len
      ensures e == contents[idx]
    {
      SlotOf(first, idx, bits);
      AndMask(SizeT(first + idx), bits);
      assert buffer[..][Slot(LowBits(first, bits), mask + 1, idx)] == contents[idx];
      e := buffer[And(SizeT(first + idx), mask)];
    }

    /** `hd_ringbuf_reserve` */
    method Reserve(bufsize: nat)
      requires Valid() && bufsize <= SIZE_T / 2
      modifies this
      ensures Valid() && contents == old(contents) && mask + 1 >= bufsize
      ensures buffer == old(buffer) || fresh(buffer)
    {
      if mask + 1 >= bufsize {
        return;
      }
      var size, k := PowerFor(bufsize);
      var buffer' := new Entry?[size](_ => null);
      for i := 0 to len
        invariant Valid() && contents == old(contents) && len == old(len) <= size && buffer == old(buffer)
        invariant forall j :: 0 <= j < i ==> buffer'[j] == contents[j]
      {
        buffer'[i] := Get(i);
      }
      buffer, mask, first := buffer', size - 1, 0;
      bits := k;
      LowOfSmall(0, k);
    }

    /** Steps back and stores an entry in the slot in front of all others. */
    method StoreFront(e: Entry)
      requires Valid() && len <= mask
      modifies this, buffer
      ensures Valid() && contents == [e] + old(contents) && buffer == old(buffer)
    {
      ghost var f, ring := LowBits(first, bits), buffer[..];
      SlotBefore(first, bits);
      first := SizeT(first - 1);
      AndMask(first, bits);
      buffer[And(first, mask)] := e;
      len := len + 1;
      HoldsInFront(ring, buffer[..], f, LowBits(first, bits), contents, e);
      contents := [e] + contents;
    }

    /** `hd_ringbuf_push_front` */
    method PushFront(e: Entry)
      requires Valid() && len < SIZE_T / 2
      modifies this, buffer
      ensures Valid() && contents == [e] + old(contents)
      ensures buffer == old(buffer) || fresh(buffer)
    {
      Reserve(len + 1);
      StoreFront(e);
    }

    /** `hd_ringbuf_pop_back` */
    method PopBack()
      requires Valid() && len > 0
      modifies this
      ensures Valid() && contents == old(contents[..len - 1]) && buffer == old(buffer)
    {
      len := len - 1;
      contents := contents[..len];
    }
  }

  /** The smallest power of two that is large enough. */
  method PowerFor(bufsize: nat) returns (size: nat, ghost k: nat)
    requires bufsize <= SIZE_T / 2
    ensures size == Pow2(k) >= bufsize && k <= 63
    ensures size > 1 ==> size < 2 * bufsize
  {
    size, k := 1, 0;
    SizeTPower();
    while size < bufsize
      invariant size == Pow2(k) && k <= 63
      invariant size > 1 ==> size < 2 * bufsize
    {
      size, k := 2 * size, k + 1;
    }
  }
}
