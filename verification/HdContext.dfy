/** `nghttp2_hd_context`: the dynamic table of one end. */
module HdContexts {
  import opened Bits
  import opened HeaderTable
  import opened RingBuffers
  import opened HdMaps

  const UINT32: nat := 0x1_0000_0000

  /** A `uint32_t` result. */
  function Uint32(x: int): nat
  {
    x % UINT32
  }

  /** Entries carry consecutive sequence numbers, modulo 2^32, the newest the one before `next`. */
  ghost predicate Numbered(entries: seq<Entry>, next: nat)
  {
    forall i :: 0 <= i < |entries| ==> entries[i].seqno == Uint32(next - 1 - i)
  }

  lemma FieldsPrefix(entries: seq<Entry>, n: nat)
    requires n <= |entries|
    ensures Fields(entries[..n]) == Fields(entries)[..n]
  {
  }

  lemma FieldsCons(e: Entry, entries: seq<Entry>)
    ensures Fields([e] + entries) == [e.field] + Fields(entries)
  {
  }

  lemma EvictLast(t: Table, t': Table, limit: nat, goal: Table)
    requires t != [] && t' == t[..|t| - 1] && Size(t) > limit && Evict(t, limit) == goal
    ensures Evict(t', limit) == goal
  {
  }

  lemma NumberedCons(e: Entry, entries: seq<Entry>, next: nat)
    requires next < UINT32 && Numbered(entries, next) && e.seqno == next
    ensures Numbered([e] + entries, Uint32(next + 1))
  {
    forall i | 0 <= i < |entries| + 1
      ensures ([e] + entries)[i].seqno == Uint32(Uint32(next + 1) - 1 - i)
    {
      assert i > 0 ==> entries[i - 1].seqno == Uint32(next - 1 - (i - 1));
    }
  }

  /** Dropping the last of distinct entries. */
  lemma {:induction false} WithoutLast(entries: seq<Entry>)
    requires Distinct(entries) && entries != []
    ensures Without(entries, entries[|entries| - 1]) == entries[..|entries| - 1]
  {
    WithoutAt(entries, |entries| - 1);
    assert entries[|entries|..] == [];
  }

  class HdContext {
    const ring: RingBuffer // `hd_table`
    const index: HdMap?      // the encoder's hash map; the decoder has none
    var bufsize: nat       // `hd_table_bufsize`
    var bufsizeMax: nat    // `hd_table_bufsize_max`
    var nextSeq: nat
    var bad: bool

    /** The ring buffer, the byte count and the sequence numbers fit together. */
    ghost predicate Counted()
      reads this, ring, ring.buffer
    {
      && ring.Valid() && Distinct(ring.contents)
      && bufsize == Size(Fields(ring.contents)) < UINT32
      && nextSeq < UINT32 && Numbered(ring.contents, nextSeq)
    }

    /** The hash map holds exactly these entries. */
    ghost predicate Indexes(entries: seq<Entry>)
      reads this, ring, entries, if index == null then {} else {index.table}
    {
      index != null ==> index.table != ring.buffer && index.Valid(entries)
    }

    /** Everything holds but perhaps the size limit. */
    ghost predicate Linked()
      reads this, ring, ring.buffer, ring.contents, if index == null then {} else {index.table}
    {
      Counted() && Indexes(ring.contents)
    }

    ghost predicate Valid()
      reads this, ring, ring.buffer, ring.contents, if index == null then {} else {index.table}
    {
      Linked() && bufsize <= bufsizeMax < UINT32
    }

    /** The dynamic table as a value. */
    ghost function Table(): Table
      reads ring
    {
      Fields(ring.contents)
    }

    ghost function Objects(): set<object>
      reads this, ring
    {
      {this, ring, ring.buffer} + (if index == null then {} else {index.table}) + (set e | e in ring.contents)
    }

    constructor (index: HdMap?)
      requires index != null ==> index.Valid([])
      ensures Valid() && ring.contents == [] && Table() == [] && bufsize == 0 && bufsizeMax == 4096 && !bad && this.index == index
      ensures fresh(Objects() - (if index == null then {} else {index.table}))
    {
      ring := new RingBuffer(4096 / ENTRY_OVERHEAD);
      this.index := index;
      bufsize, bufsizeMax, nextSeq, bad := 0, 4096, 0, false;
    }

    /** Takes the oldest entry out of the ring buffer. */
    method TakeOldest() returns (ent: Entry)
      requires Counted() && ring.len > 0
      modifies this`bufsize, ring
      ensures Counted() && ring.buffer == old(ring.buffer) && bufsize <= old(bufsize)
      ensures ring.contents == old(ring.contents[..ring.len - 1]) && ent == old(ring.contents[ring.len - 1])
    {
      var idx := ring.len - 1;
      ent := ring.Get(idx);
      FieldsPrefix(ring.contents, idx);
      bufsize := bufsize - EntryRoom(ent.field);
      ring.PopBack();
    }

    /** The body of both eviction loops. */
    method PopOldest()
      requires Linked() && ring.len > 0
      modifies this`bufsize, ring, ring.contents, if index == null then {} else {index.table}
      ensures Linked() && ring.buffer == old(ring.buffer) && |ring.contents| < old(|ring.contents|)
      ensures ring.contents <= old(ring.contents) && Table() == old(Table()[..ring.len - 1])
    {
      FieldsPrefix(ring.contents, ring.len - 1);
      ghost var entries := ring.contents;
      var ent := TakeOldest();
      if index != null {
        index.Remove(ent, entries);
        WithoutLast(entries);
      }
    }

    /** The same seen from the table the eviction is to end with. */
    method PopTowards(ghost limit: nat, ghost goal: Table)
      requires Linked() && ring.len > 0 && bufsize > limit && Evict(Table(), limit) == goal
      modifies this`bufsize, ring, ring.contents, if index == null then {} else {index.table}
      ensures Linked() && ring.buffer == old(ring.buffer) && |ring.contents| < old(|ring.contents|)
      ensures ring.contents <= old(ring.contents) && Evict(Table(), limit) == goal
    {
      ghost var t := Table();
      PopOldest();
      EvictLast(t, Table(), limit, goal);
    }

    /** Evicts until `room` more bytes fit, or nothing is left. */
    method MakeRoom(room: nat)
      requires Linked() && bufsizeMax < UINT32
      modifies this`bufsize, ring, ring.contents, if index == null then {} else {index.table}
      ensures Linked() && ring.buffer == old(ring.buffer) && ring.contents <= old(ring.contents)
      ensures room <= bufsizeMax ==> Table() == Evict(old(Table()), bufsizeMax - room) && bufsize + room <= bufsizeMax
      ensures room > bufsizeMax ==> Table() == [] && bufsize == 0
    {
      hide Evict, Size;
      ghost var was := ring.contents;
      ghost var fits, limit: nat := room <= bufsizeMax, if room <= bufsizeMax then bufsizeMax - room else 0;
      ghost var goal := Evict(Table(), limit);
      while bufsize + room > bufsizeMax && ring.len > 0
        invariant Linked() && ring.buffer == old(ring.buffer) && ring.contents <= was
        invariant Evict(Table(), limit) == goal
        decreases |ring.contents|
      {
        PrefixOf(ring.contents, was);
        SizeCount(Table());
        PopTowards(limit, goal);
      }
      EvictFits(Table(), limit);
    }

    /** `hd_context_shrink_table_size` */
    method Shrink()
      requires Linked() && bufsizeMax < UINT32
      modifies this`bufsize, ring, ring.contents, if index == null then {} else {index.table}
      ensures Valid() && ring.buffer == old(ring.buffer)
      ensures Table() == Evict(old(Table()), bufsizeMax) && ring.contents <= old(ring.contents)
    {
      MakeRoom(0);
    }

    /** Puts a new entry in front of the ring buffer. */
    method Store(f: Field, token: int, hash: nat) returns (ent: Entry)
      requires Counted() && bufsize + EntryRoom(f) < UINT32
      modifies this`bufsize, this`nextSeq, ring, ring.buffer
      ensures Counted() && ring.contents == [ent] + old(ring.contents) && fresh(ent)
      ensures Table() == [f] + old(Table()) && bufsize == old(bufsize) + EntryRoom(f)
      ensures ring.buffer == old(ring.buffer) || fresh(ring.buffer)
      ensures ent.field == f && ent.token == token && ent.hash == hash && ent.next == null
    {
      hide Size;
      SizeCount(Fields(ring.contents));
      SizeCons(f, Fields(ring.contents));
      ent := new Entry(f, token, nextSeq, hash);
      FieldsCons(ent, ring.contents);
      NumberedCons(ent, ring.contents, nextSeq);
      ring.PushFront(ent);
      nextSeq := Uint32(nextSeq + 1);
      bufsize := bufsize + EntryRoom(f);
    }

    /** The same, and in front of its bucket. */
    method StoreLinked(f: Field, token: int, hash: nat) returns (ent: Entry)
      requires Linked() && bufsize + EntryRoom(f) < UINT32
      modifies this`bufsize, this`nextSeq, ring, ring.buffer, if index == null then {} else {index.table}
      ensures Linked() && ring.contents == [ent] + old(ring.contents) && fresh(ent)
      ensures Table() == [f] + old(Table()) && bufsize == old(bufsize) + EntryRoom(f)
      ensures ring.buffer == old(ring.buffer) || fresh(ring.buffer)
      ensures ent.field == f && ent.token == token && ent.hash == hash
    {
      ghost var entries := ring.contents;
      ent := Store(f, token, hash);
      if index != null {
        index.Insert(ent, entries);
      }
    }

    /** `add_hd_table_incremental` */
    method AddIncremental(f: Field, token: int, hash: nat)
      requires Valid()
      modifies this`bufsize, this`nextSeq, ring, ring.buffer, ring.contents, if index == null then {} else {index.table}
      ensures Valid() && Table() == Add(old(Table()), f, bufsizeMax)
      ensures ring.buffer == old(ring.buffer) || fresh(ring.buffer)
      ensures forall e <- ring.contents :: e in old(ring.contents)
                || (fresh(e) && e.token == token && e.hash == hash && e.field == f)
    {
      var room := EntryRoom(f);
      MakeRoom(room);
      if room > bufsizeMax {
        return;
      }
      var ent := StoreLinked(f, token, hash);
    }
  }

  lemma PrefixOf(a: seq<Entry>, b: seq<Entry>)
    requires a <= b
    ensures forall e <- a :: e in b
  {
  }
}
