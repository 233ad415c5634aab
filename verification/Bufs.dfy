/** The chained output buffers `nghttp2_bufs`. */
module Bufs {
  import opened Bits

  /** `last[i]` bytes of chunk `i` are written. */
  ghost predicate InBounds(data: seq<array<Byte>>, last: seq<nat>)
  {
    |data| == |last| && forall i :: 0 <= i < |data| ==> last[i] <= data[i].Length
  }

  /** What the first `n` chunks hold. */
  ghost function Written(data: seq<array<Byte>>, last: seq<nat>, n: nat): Bytes
    requires InBounds(data, last) && n <= |data|
    reads data[..n]
  {
    if n == 0 then [] else
      assert data[..n][n - 1] == data[n - 1];
      assert forall a <- data[..n - 1] :: a in data[..n];
      Written(data, last, n - 1) + data[n - 1][..last[n - 1]]
  }

  lemma NothingWritten(data: seq<array<Byte>>, last: seq<nat>)
    requires InBounds(data, last)
    ensures Written(data, last, 0) == []
  {
  }

  lemma {:induction false} WrittenFrame(data: seq<array<Byte>>, last: seq<nat>, last': seq<nat>, n: nat)
    requires InBounds(data, last) && InBounds(data, last') && n <= |data|
    requires last[..n] == last'[..n]
    ensures Written(data, last, n) == Written(data, last', n)
  {
    if n != 0 {
      assert last[n - 1] == last[..n][n - 1] == last'[..n][n - 1] == last'[n - 1];
      assert last[..n - 1] == last[..n][..n - 1] == last'[..n][..n - 1] == last'[..n - 1];
      WrittenFrame(data, last, last', n - 1);
    }
  }

  /** The free bytes of chunk `i` and all chunks after it. */
  ghost function Free(data: seq<array<Byte>>, last: seq<nat>, i: nat): nat
    requires InBounds(data, last) && i <= |data|
    decreases |data| - i
  {
    if i == |data| then 0 else data[i].Length - last[i] + Free(data, last, i + 1)
  }

  lemma {:induction false} FreeFrame(data: seq<array<Byte>>, last: seq<nat>, last': seq<nat>, i: nat)
    requires InBounds(data, last) && InBounds(data, last') && i <= |data|
    requires forall j :: i <= j < |data| ==> last[j] == last'[j]
    ensures Free(data, last, i) == Free(data, last', i)
    decreases |data| - i
  {
    if i < |data| {
      FreeFrame(data, last, last', i + 1);
    }
  }

  /** All bytes of some buffers, one after the other. */
  ghost function Memory(vec: seq<array<Byte>>): Bytes
    reads vec
  {
    if vec == [] then [] else
      assert vec[|vec| - 1] in vec && forall a <- vec[..|vec| - 1] :: a in vec;
      Memory(vec[..|vec| - 1]) + vec[|vec| - 1][..]
  }

  /** Full chunks hold all of their memory. */
  lemma {:induction false} WrittenFull(data: seq<array<Byte>>, last: seq<nat>, n: nat)
    requires InBounds(data, last) && n <= |data| && forall i :: 0 <= i < n ==> last[i] == data[i].Length
    ensures Written(data, last, n) == Memory(data[..n])
  {
    if n != 0 {
      WrittenFull(data, last, n - 1);
      assert data[..n][..n - 1] == data[..n - 1];
    }
  }

  lemma {:induction false} MemoryPrefix(data: seq<array<Byte>>, n: nat)
    requires n <= |data|
    ensures Memory(data[..n]) <= Memory(data)
  {
    if n < |data| {
      var front := data[..|data| - 1];
      MemoryPrefix(front, n);
      assert front[..n] == data[..n];
    } else {
      assert data[..n] == data;
    }
  }

  /** The total size of some buffers. */
  ghost function TotalLength(vec: seq<array<Byte>>): nat
  {
    if vec == [] then 0 else vec[0].Length + TotalLength(vec[1..])
  }

  lemma {:induction false} FreeAll(data: seq<array<Byte>>, last: seq<nat>, i: nat)
    requires InBounds(data, last) && i <= |data| && forall j :: 0 <= j < |data| ==> last[j] == 0
    ensures Free(data, last, i) == TotalLength(data[i..])
    decreases |data| - i
  {
    if i < |data| {
      FreeAll(data, last, i + 1);
      assert data[i..][1..] == data[i + 1..];
    }
  }

  lemma TotalOfEmpty(a: array<Byte>)
    requires a.Length == 0
    ensures TotalLength([a]) == TotalLength([])
  {
    assert [a][1..] == [];
  }

  /** `nghttp2_bufs` over caller-supplied memory: a chain of chunks, written front to back. */
  class Bufs {
    const data: seq<array<Byte>> // `begin` to `end` of each chunk, in the order of the `next` links
    var last: seq<nat>           // how much of each chunk is written
    var cur: nat                 // the chunk being written

    ghost predicate Valid()
      reads this
    {
      && cur < |data|
      && InBounds(data, last)
      && (forall i, j :: 0 <= i < j < |data| ==> data[i] != data[j])
      && (forall i :: 0 <= i < cur ==> last[i] == data[i].Length)
      && (forall i :: cur < i < |data| ==> last[i] == 0 < data[i].Length)
    }

    /** Everything written so far; the chunks after the current one are empty. */
    ghost function Contents(): Bytes
      requires Valid()
      reads this, data
    {
      Written(data, last, cur) + data[cur][..last[cur]]
    }

    /** `nghttp2_bufs_cur_avail`. */
    function Avail(): nat
      requires Valid()
      reads this
    {
      data[cur].Length - last[cur]
    }

    /** How many more bytes the chain can take. */
    ghost function Room(): nat
      requires Valid()
      reads this
    {
      Free(data, last, cur)
    }

    /** The byte at the write position, not yet part of the contents. */
    ghost function Held(): Byte
      requires Valid() && Avail() > 0
      reads this, data
    {
      data[cur][last[cur]]
    }

    /** `nghttp2_bufs_wrap_init2`, and with a one-element vector `nghttp2_bufs_wrap_init`. */
    constructor Wrap(vec: seq<array<Byte>>)
      requires forall i, j :: 0 <= i < j < |vec| ==> vec[i] != vec[j]
      requires forall i :: 0 < i < |vec| ==> vec[i].Length > 0
      ensures Valid() && Contents() == [] && Room() == TotalLength(vec)
      ensures if vec == [] then forall i :: 0 <= i < |data| ==> fresh(data[i]) else data == vec
    {
      hide Free, TotalLength, Written;
      var v := vec;
      if vec == [] {
        var none := new Byte[0];
        v := [none];
        TotalOfEmpty(none);
      }
      data, last, cur := v, seq(|v|, _ => 0), 0;
      new;
      FreeAll(v, last, 0);
      NothingWritten(v, last);
      assert v[0..] == v;
    }

    /** `bufs_alloc_chain`: moves on to the next chunk; wrapped memory never grows. */
    method AllocChain() returns (ok: bool)
      requires Valid() && Avail() == 0
      modifies this`cur
      ensures Valid()
      ensures ok ==> cur == old(cur) + 1 && Avail() > 0 && Room() == old(Room())
      ensures Contents() == old(Contents())
      ensures !ok ==> cur == old(cur) && Room() == Avail()
    {
      if cur + 1 < |data| {
        cur := cur + 1;
        return true;
      }
      assert Free(data, last, cur + 1) == 0;
      return false;
    }

    /** `nghttp2_cpymem` at the write position, within the current chunk. */
    method Write(d: Bytes)
      requires Valid() && |d| <= Avail()
      modifies this`last, data[cur]
      ensures Valid()
      ensures Contents() == old(Contents()) + d
      ensures Room() == old(Room()) - |d| && Avail() == old(Avail()) - |d|
    {
      var a, l := data[cur], last[cur];
      forall i | 0 <= i < |d| {
        a[l + i] := d[i];
      }
      assert a[..l + |d|] == old(a[..l]) + d;
      ghost var last0 := last;
      last := last[cur := l + |d|];
      assert Written(data, last0, cur) == old(Written(data, last, cur));
      WrittenFrame(data, last0, last, cur);
      FreeFrame(data, last0, last, cur + 1);
    }

    /** `nghttp2_bufs_add`: fails exactly when the data does not fit, having then filled all the room. */
    method Add(d: Bytes) returns (ok: bool)
      requires Valid()
      modifies this, data
      ensures Valid()
      ensures ok <==> |d| <= old(Room())
      ensures ok ==> Contents() == old(Contents()) + d && Room() == old(Room()) - |d|
      ensures !ok ==> Contents() == old(Contents()) + d[..old(Room())] && Room() == 0
    {
      var p: nat := 0;
      ghost var before, room := Contents(), Room();
      while p < |d|
        invariant Valid() && p <= |d|
        invariant Contents() == before + d[..p] && Room() + p == room
        decreases |d| - p, |data| - cur
      {
        var nwrite := if Avail() < |d| - p then Avail() else |d| - p;
        if nwrite == 0 {
          var more := AllocChain();
          if !more {
            return false;
          }
        } else {
          Write(d[p..p + nwrite]);
          TakeMore(before, d, p, nwrite);
          p := p + nwrite;
        }
      }
      TakeMore(before, d, |d|, 0);
      return true;
    }

    /** `bufs_ensure_addb`: makes sure the current chunk has a free byte. */
    method EnsureAddB() returns (ok: bool)
      requires Valid()
      modifies this`cur
      ensures Valid() && Contents() == old(Contents()) && Room() == old(Room())
      ensures ok <==> Room() > 0
      ensures ok ==> Avail() > 0
      ensures old(Avail()) > 0 ==> cur == old(cur)
    {
      if Avail() > 0 {
        return true;
      }
      ok := AllocChain();
    }

    /** `nghttp2_bufs_addb`. */
    method AddB(b: Byte) returns (ok: bool)
      requires Valid()
      modifies this, data
      ensures Valid()
      ensures ok <==> old(Room()) > 0
      ensures ok ==> Contents() == old(Contents()) + [b] && Room() == old(Room()) - 1
      ensures !ok ==> Contents() == old(Contents()) && Room() == 0
    {
      ok := EnsureAddB();
      if ok {
        Write([b]);
      }
    }

    /** `nghttp2_bufs_addb_hold`: stores a byte at the write position without claiming it. */
    method AddBHold(b: Byte) returns (ok: bool)
      requires Valid()
      modifies this, data
      ensures Valid() && Contents() == old(Contents()) && Room() == old(Room())
      ensures ok <==> Room() > 0
      ensures ok ==> Avail() > 0 && Held() == b
    {
      ok := EnsureAddB();
      if ok {
        FastAddBHold(b);
      }
    }

    /** `nghttp2_bufs_fast_addb`, `nghttp2_bufs_fast_addb_hold`: the caller knows there is room. */
    method FastAddB(b: Byte)
      requires Valid() && Avail() > 0
      modifies this`last, data[cur]
      ensures Valid() && Contents() == old(Contents()) + [b]
      ensures Room() == old(Room()) - 1 && Avail() == old(Avail()) - 1
    {
      Write([b]);
    }

    method FastAddBHold(b: Byte)
      requires Valid() && Avail() > 0
      modifies data[cur]
      ensures Valid() && Contents() == old(Contents()) && Held() == b
    {
      data[cur][last[cur]] := b;
      assert Written(data, last, cur) == old(Written(data, last, cur));
      assert data[cur][..last[cur]] == old(data[cur][..last[cur]]);
    }

    /** `nghttp2_bufs_fast_orb`, `nghttp2_bufs_fast_orb_hold`: or-s into the held byte. */
    method FastOrb(b: Byte)
      requires Valid() && Avail() > 0
      modifies this`last, data[cur]
      ensures Valid() && Contents() == old(Contents()) + [old(OrByte(Held(), b))]
      ensures Room() == old(Room()) - 1 && Avail() == old(Avail()) - 1
    {
      Write([OrByte(data[cur][last[cur]], b)]);
    }

    method FastOrbHold(b: Byte)
      requires Valid() && Avail() > 0
      modifies data[cur]
      ensures Valid() && Contents() == old(Contents()) && Held() == old(OrByte(Held(), b))
    {
      FastAddBHold(OrByte(data[cur][last[cur]], b));
    }

    /** The output fills the chunks one after the other, without gaps. */
    lemma NoGaps()
      requires Valid()
      ensures Contents() <= Memory(data)
    {
      WrittenFull(data, last, cur);
      MemoryPrefix(data, cur + 1);
      assert data[..cur + 1][..cur] == data[..cur];
      assert data[cur][..last[cur]] <= data[cur][..];
    }

    /** `nghttp2_bufs_len`. */
    method Len() returns (len: nat)
      requires Valid()
      ensures len == |Contents()|
    {
      len := 0;
      for i := 0 to |data|
        invariant len == |Written(data, last, i)|
      {
        len := len + last[i];
      }
      WrittenTail(data, last, cur + 1);
    }
  }

  /** Empty chunks at the end add nothing. */
  lemma {:induction false} WrittenTail(data: seq<array<Byte>>, last: seq<nat>, n: nat)
    requires InBounds(data, last) && n <= |data| && forall i :: n <= i < |data| ==> last[i] == 0
    ensures Written(data, last, |data|) == Written(data, last, n)
    decreases |data| - n
  {
    if n < |data| {
      WrittenTail(data, last, n + 1);
      assert Written(data, last, n + 1) == Written(data, last, n) + data[n][..0];
    }
  }

  lemma TakeMore(before: Bytes, d: Bytes, p: nat, n: nat)
    requires p + n <= |d|
    ensures before + d[..p] + d[p..p + n] == before + d[..p + n]
    ensures d[..|d|] == d
  {
    assert d[..p] + d[p..p + n] == d[..p + n];
  }
}
