/** Reference-counted names and values, and the places of the HPACK decoder that hold references. */
module RcBufs {
  import opened Bits
  import opened Encoding
  import D = Decoding
  import P = PrefixInt

  /** `nghttp2_rcbuf`; `frees` counts how often its memory was given back. */
  class RcBuf {
    const base: Bytes
    var ref: int
    ghost var frees: nat

    /** `nghttp2_rcbuf_new2` */
    constructor (src: Bytes)
      ensures base == src && ref == 1 && frees == 0
    {
      base, ref, frees := src, 1, 0;
    }

    /** An entry of the static table. */
    constructor Static(src: Bytes)
      ensures base == src && ref == -1 && frees == 0
    {
      base, ref, frees := src, -1, 0;
    }

    /** The count is the number of holders; a buffer without holders has been freed, once. */
    ghost predicate Right(holders: nat)
      reads this
    {
      (ref == -1 && frees == 0) || (ref == holders && frees == if holders == 0 then 1 else 0)
    }

    /** Given back once, unless it is static. */
    ghost predicate Freed()
      reads this
    {
      if ref == -1 then frees == 0 else ref == 0 && frees == 1
    }

    /** `nghttp2_rcbuf_incref` */
    method Incref(ghost holders: nat)
      requires Right(holders) && (ref == -1 || holders > 0)
      modifies this
      ensures Right(holders + 1) && (ref == -1 <==> old(ref) == -1)
    {
      if ref == -1 {
        return;
      }
      ref := ref + 1;
    }

    /** `nghttp2_rcbuf_decref` */
    method Decref(ghost holders: nat)
      requires Right(holders) && holders > 0
      modifies this
      ensures Right(holders - 1) && (ref == -1 <==> old(ref) == -1)
    {
      if ref == -1 {
        return;
      }
      assert ref > 0;
      ref := ref - 1;
      if ref == 0 {
        frees := frees + 1; // `nghttp2_rcbuf_del`
      }
    }
  }

  /** The references a table entry holds. */
  datatype Held = Held(name: RcBuf, value: RcBuf)

  ghost function TableRefs(table: seq<Held>): multiset<RcBuf>
  {
    if table == [] then multiset{} else multiset{table[0].name, table[0].value} + TableRefs(table[1..])
  }

  lemma {:induction false} TableRefsLast(table: seq<Held>)
    requires table != []
    ensures var e := table[|table| - 1];
            TableRefs(table) == TableRefs(table[..|table| - 1]) + multiset{e.name, e.value}
  {
    if |table| == 1 {
      assert table[1..] == [] && table[..0] == [];
    } else {
      TableRefsLast(table[1..]);
      assert table[1..][..|table| - 2] == table[..|table| - 1][1..];
      assert table[..|table| - 1][0] == table[0];
    }
  }

  ghost function SlotRef(slot: RcBuf?): multiset<RcBuf>
  {
    if slot == null then multiset{} else multiset{slot}
  }

  /** All references in the table and the four slots. */
  ghost function Refs(table: seq<Held>, name: RcBuf?, value: RcBuf?, nameKeep: RcBuf?, valueKeep: RcBuf?): multiset<RcBuf>
  {
    TableRefs(table) + SlotRef(name) + SlotRef(value) + SlotRef(nameKeep) + SlotRef(valueKeep)
  }

  // ---- Moving references between the holders ----

  lemma MoveOut(t: multiset<RcBuf>, n: multiset<RcBuf>, v: multiset<RcBuf>, nk: multiset<RcBuf>, vk: multiset<RcBuf>, local: multiset<RcBuf>)
    ensures t + n + v + nk + vk + local == t + multiset{} + v + nk + vk + (local + n)
    ensures t + n + v + nk + vk + local == t + n + multiset{} + nk + vk + (local + v)
    ensures t + n + v + nk + vk + local == t + n + v + multiset{} + vk + (local + nk)
    ensures t + n + v + nk + vk + local == t + n + v + nk + multiset{} + (local + vk)
  {
  }

  lemma NoRefs()
    ensures Refs([], null, null, null, null) == multiset{}
  {
  }

  lemma SlotRefs(b: RcBuf?)
    ensures SlotRef(null) == multiset{}
    ensures b != null ==> SlotRef(b) == multiset{b}
  {
  }

  lemma NameMoves(t: seq<Held>, n: RcBuf?, v: RcBuf?, nk: RcBuf?, vk: RcBuf?, local: multiset<RcBuf>)
    ensures Refs(t, n, v, nk, vk) + local == Refs(t, null, v, nk, vk) + (local + SlotRef(n))
  {
    hide SlotRef, TableRefs;
    MoveOut(TableRefs(t), SlotRef(n), SlotRef(v), SlotRef(nk), SlotRef(vk), local);
    SlotRefs(n);
  }

  lemma ValueMoves(t: seq<Held>, n: RcBuf?, v: RcBuf?, nk: RcBuf?, vk: RcBuf?, local: multiset<RcBuf>)
    ensures Refs(t, n, v, nk, vk) + local == Refs(t, n, null, nk, vk) + (local + SlotRef(v))
  {
    hide SlotRef, TableRefs;
    MoveOut(TableRefs(t), SlotRef(n), SlotRef(v), SlotRef(nk), SlotRef(vk), local);
    SlotRefs(v);
  }

  lemma NameKeepMoves(t: seq<Held>, n: RcBuf?, v: RcBuf?, nk: RcBuf?, vk: RcBuf?, local: multiset<RcBuf>)
    ensures Refs(t, n, v, nk, vk) + local == Refs(t, n, v, null, vk) + (local + SlotRef(nk))
  {
    hide SlotRef, TableRefs;
    MoveOut(TableRefs(t), SlotRef(n), SlotRef(v), SlotRef(nk), SlotRef(vk), local);
    SlotRefs(nk);
  }

  lemma ValueKeepMoves(t: seq<Held>, n: RcBuf?, v: RcBuf?, nk: RcBuf?, vk: RcBuf?, local: multiset<RcBuf>)
    ensures Refs(t, n, v, nk, vk) + local == Refs(t, n, v, nk, null) + (local + SlotRef(vk))
  {
    hide SlotRef, TableRefs;
    MoveOut(TableRefs(t), SlotRef(n), SlotRef(v), SlotRef(nk), SlotRef(vk), local);
    SlotRefs(vk);
  }

  lemma LastMoves(t: seq<Held>, n: RcBuf?, v: RcBuf?, nk: RcBuf?, vk: RcBuf?, local: multiset<RcBuf>)
    requires t != []
    ensures var e := t[|t| - 1];
            Refs(t, n, v, nk, vk) + local == Refs(t[..|t| - 1], n, v, nk, vk) + (local + multiset{e.name} + multiset{e.value})
  {
    TableRefsLast(t);
  }

  lemma FirstMoves(t: seq<Held>, e: Held, n: RcBuf?, v: RcBuf?, nk: RcBuf?, vk: RcBuf?, local: multiset<RcBuf>)
    ensures Refs([e] + t, n, v, nk, vk) + local == Refs(t, n, v, nk, vk) + (local + multiset{e.name} + multiset{e.value})
  {
    assert ([e] + t)[1..] == t;
  }

  /** Conservation: every count is the number of holders. */
  ghost predicate Counts(bufs: set<RcBuf>, held: multiset<RcBuf>)
    reads bufs
  {
    && (forall b <- held :: b in bufs)
    && (forall b <- bufs :: b.Right(held[b]))
  }

  ghost predicate Marked(bufs: set<RcBuf>, statics: set<RcBuf>)
    reads bufs
  {
    forall b <- bufs :: b.ref == -1 <==> b in statics
  }

  method TakeRef(b: RcBuf, ghost bufs: set<RcBuf>, ghost held: multiset<RcBuf>)
    requires Counts(bufs, held) && b in bufs && (b.ref == -1 || b in held)
    modifies b
    ensures Counts(bufs, held + multiset{b}) && (b.ref == -1 <==> old(b.ref) == -1)
  {
    b.Incref(held[b]);
  }

  method GiveRef(b: RcBuf, ghost bufs: set<RcBuf>, ghost held: multiset<RcBuf>)
    requires Counts(bufs, held + multiset{b})
    modifies b
    ensures Counts(bufs, held) && (b.ref == -1 <==> old(b.ref) == -1)
  {
    assert b in held + multiset{b};
    b.Decref((held + multiset{b})[b]);
  }

  /** The decoder as a holder of references. */
  class Holder {
    var table: seq<Held>       // the entries of `hd_table`, newest first
    var name: RcBuf?           // `namercbuf`
    var value: RcBuf?          // `valuercbuf`
    var nameKeep: RcBuf?       // `nv_name_keep`
    var valueKeep: RcBuf?      // `nv_value_keep`
    var calling: bool          // in a call that has not emitted a header
    ghost const statics: set<RcBuf>
    ghost var bufs: set<RcBuf> // every buffer there ever was
    var at: At                 // `state`, as far as references go
    ghost var local: multiset<RcBuf> // references held by the running function, or lost by an overwritten slot

    ghost function Owned(): multiset<RcBuf>
      reads this`table, this`name, this`value, this`nameKeep, this`valueKeep
    {
      Refs(table, name, value, nameKeep, valueKeep)
    }

    ghost predicate Valid()
      reads this`table, this`name, this`value, this`nameKeep, this`valueKeep, this`local, this`bufs, bufs
    {
      Counts(bufs, Owned() + local) && Marked(bufs, statics)
    }

    constructor (statics: set<RcBuf>)
      requires forall b <- statics :: b.ref == -1 && b.frees == 0
      ensures Valid() && bufs == this.statics == statics && table == [] && local == multiset{} && !calling
      ensures name == null && value == null && nameKeep == null && valueKeep == null && at == Between
    {
      table, name, value, nameKeep, valueKeep, at := [], null, null, null, null, Between;
      this.statics, calling, bufs, local := statics, false, statics, multiset{};
      new;
      hide Refs;
      NoRefs();
    }

    /** A new buffer, its one reference held by the running function. */
    method New(src: Bytes) returns (b: RcBuf)
      requires Valid()
      modifies this`bufs, this`local
      ensures Valid() && fresh(b) && b.base == src && b !in statics
      ensures bufs == old(bufs) + {b} && local == old(local) + multiset{b}
    {
      hide Owned, Counts;
      b := new RcBuf(src);
      Includes(b);
      bufs, local := bufs + {b}, local + multiset{b};
    }

    lemma Includes(b: RcBuf)
      requires Counts(bufs, Owned() + local) && b.Right(1) && b !in bufs
      ensures Counts(bufs + {b}, Owned() + (local + multiset{b}))
    {
    }

    /** A reference more, for the running function. */
    method Take(b: RcBuf)
      requires Valid() && b in bufs && (b.ref == -1 || b in Owned() + local)
      modifies this`local, b
      ensures Valid() && local == old(local) + multiset{b}
    {
      hide Owned, Counts;
      TakeRef(b, bufs, Owned() + local);
      assert Owned() + local + multiset{b} == Owned() + (local + multiset{b});
      local := local + multiset{b};
    }

    /** The running function gives up a reference. */
    method Give(b: RcBuf)
      requires Valid() && b in local
      modifies this`local, b
      ensures Valid() && local == old(local) - multiset{b}
    {
      hide Owned, Counts;
      assert Owned() + local == Owned() + (local - multiset{b}) + multiset{b};
      GiveRef(b, bufs, Owned() + (local - multiset{b}));
      local := local - multiset{b};
    }

    /** `nghttp2_rcbuf_new(&inflater->namercbuf, ...)`: whatever the slot held is held by nobody any more. */
    method BeginName(src: Bytes)
      requires Valid()
      modifies this`bufs, this`local, this`name
      ensures Valid() && local == old(local) + SlotRef(old(name))
      ensures fresh(bufs - old(bufs)) && old(bufs) <= bufs && name != null && name !in statics
    {
      hide Marked, Refs, Counts, SlotRef;
      NameMoves(table, name, value, nameKeep, valueKeep, local);
      local, name := local + SlotRef(name), null;
      ghost var l := local;
      var b := New(src);
      NameMoves(table, b, value, nameKeep, valueKeep, l);
      SlotRefs(b);
      name, local := b, l;
    }

    method BeginValue(src: Bytes)
      requires Valid()
      modifies this`bufs, this`local, this`value
      ensures Valid() && local == old(local) + SlotRef(old(value))
      ensures fresh(bufs - old(bufs)) && old(bufs) <= bufs && value != null && value !in statics
    {
      hide Marked, Refs, Counts, SlotRef;
      ValueMoves(table, name, value, nameKeep, valueKeep, local);
      local, value := local + SlotRef(value), null;
      ghost var l := local;
      var b := New(src);
      ValueMoves(table, name, b, nameKeep, valueKeep, l);
      SlotRefs(b);
      value, local := b, l;
    }

    /** `nghttp2_rcbuf_decref`, which accepts NULL. */
    method GiveSlot(b: RcBuf?)
      requires Valid() && (b != null ==> b in local)
      modifies this`local, b
      ensures Valid() && local == old(local) - SlotRef(b)
    {
      if b != null {
        Give(b);
      }
    }

    method DropValueKeep()
      requires Valid()
      modifies this`valueKeep, this`local, bufs
      ensures Valid() && local == old(local) && valueKeep == null
    {
      hide Marked, Refs, Counts, SlotRef;
      var v := valueKeep;
      ghost var l := local;
      Known(v, l + SlotRef(v));
      ValueKeepMoves(table, name, value, nameKeep, v, l);
      valueKeep, local := null, l + SlotRef(v);
      GiveSlot(v);
      assert l + SlotRef(v) - SlotRef(v) == l;
    }

    method DropNameKeep()
      requires Valid()
      modifies this`nameKeep, this`local, bufs
      ensures Valid() && local == old(local) && nameKeep == null
    {
      hide Marked, Refs, Counts, SlotRef;
      var n := nameKeep;
      ghost var l := local;
      Known(n, l + SlotRef(n));
      NameKeepMoves(table, name, value, n, valueKeep, l);
      nameKeep, local := null, l + SlotRef(n);
      GiveSlot(n);
      assert l + SlotRef(n) - SlotRef(n) == l;
    }

    /** `hd_inflate_keep_free` */
    method KeepFree()
      requires Valid()
      modifies this`nameKeep, this`valueKeep, this`local, bufs
      ensures Valid() && local == old(local) && nameKeep == null && valueKeep == null
    {
      DropValueKeep();
      DropNameKeep();
    }

    lemma Known(b: RcBuf?, held: multiset<RcBuf>)
      requires Valid() && (b == name || b == value || b == nameKeep || b == valueKeep) && held == local + SlotRef(b)
      ensures b != null ==> b in bufs && b in held
    {
    }

    // ---- The table ----

    /** Takes the oldest entry out of the table and frees it, `nghttp2_hd_entry_free`. */
    method Evict()
      requires Valid() && table != []
      modifies this`table, this`local, bufs
      ensures Valid() && local == old(local) && table == old(table[..|table| - 1])
    {
      hide Marked, Refs, Counts, TableRefs, SlotRef;
      var e := table[|table| - 1];
      ghost var l := local;
      LastMoves(table, name, value, nameKeep, valueKeep, l);
      table, local := table[..|table| - 1], l + multiset{e.name} + multiset{e.value};
      GiveBoth(e.name, e.value, l);
    }

    /** Gives up the references of the running function, the value first. */
    method GiveBoth(n: RcBuf, v: RcBuf, ghost l: multiset<RcBuf>)
      requires Valid() && local == l + multiset{n} + multiset{v}
      modifies this`local, bufs
      ensures Valid() && local == l
    {
      hide Marked, Refs, Counts;
      LocalKnown(v);
      Give(v);
      assert local == l + multiset{n};
      LocalKnown(n);
      Give(n);
      assert local == l;
    }

    lemma LocalKnown(b: RcBuf)
      requires Valid() && b in local
      ensures b in bufs
    {
    }

    /** A reference other than a table entry's keeps the buffer alive. */
    ghost predicate Pinned(b: RcBuf)
      reads this`name, this`value, this`local
    {
      b in local || b == name || b == value
    }

    lemma PinnedKnown(b: RcBuf)
      requires Valid() && Pinned(b)
      ensures b in bufs && b in Owned() + local
    {
    }

    /** Puts an entry in front of the table, `nghttp2_hd_entry_init`: it holds references of its own. */
    method Insert(n: RcBuf, v: RcBuf)
      requires Valid() && Pinned(n) && Pinned(v)
      modifies this`table, this`local, bufs
      ensures Valid() && local == old(local) && table == [Held(n, v)] + old(table)
    {
      hide Marked, Refs, Counts, TableRefs, SlotRef;
      ghost var l := local;
      PinnedKnown(n);
      PinnedKnown(v);
      Take(n);
      assert v in Owned() + local;
      Take(v);
      FirstMoves(table, Held(n, v), name, value, nameKeep, valueKeep, l);
      table, local := [Held(n, v)] + table, l;
    }

    /**
     * `add_hd_table_incremental`: evicts `evict` entries and then stores the new one if it fits. The
     * reference that pins the name keeps it alive even if the entry it came from goes.
     */
    method Add(n: RcBuf, v: RcBuf, evict: nat, stores: bool)
      requires Valid() && Pinned(n) && Pinned(v) && evict <= |table|
      modifies this`table, this`local, bufs
      ensures Valid() && local == old(local)
      ensures table == (if stores then [Held(n, v)] else []) + old(table[..|table| - evict])
    {
      hide Counts, Refs;
      ghost var was := table;
      for i := 0 to evict
        invariant Valid() && local == old(local) && bufs == old(bufs) && table == was[..|was| - i]
      {
        Evict();
      }
      if stores {
        Insert(n, v);
      }
    }

    // ---- The decoder's operations ----

    /** `hd_inflate_commit_newname`: the references of the slots pass to the application. */
    method CommitNewname(indexed: bool, evict: nat, stores: bool)
      requires Valid() && name != null && value != null && nameKeep == null && valueKeep == null && evict <= |table|
      modifies this`table, this`name, this`value, this`nameKeep, this`valueKeep, this`local, bufs
      ensures Valid() && local == old(local)
      ensures nameKeep == old(name) && valueKeep == old(value) && name == null && value == null
      ensures table == if indexed then (if stores then [Held(old(name), old(value))] else []) + old(table[..|table| - evict]) else old(table)
    {
      hide Marked, Refs, Counts;
      var n, v := name, value;
      if indexed {
        Add(n, v, evict, stores);
      }
      BothMove(table, n, v);
      nameKeep, valueKeep := n, v;
      name, value := null, null;
    }

    /** `hd_inflate_commit_indname`: the name is an entry's or a static one. */
    method CommitIndname(n: RcBuf, indexed: bool, evict: nat, stores: bool)
      requires Valid() && value != null && nameKeep == null && valueKeep == null && evict <= |table|
      requires n in bufs && (n.ref == -1 || n in Owned())
      modifies this`table, this`value, this`nameKeep, this`valueKeep, this`local, bufs
      ensures Valid() && local == old(local)
      ensures nameKeep == n && valueKeep == old(value) && value == null
      ensures table == if indexed then (if stores then [Held(n, old(value))] else []) + old(table[..|table| - evict]) else old(table)
    {
      hide Marked, Refs, Counts;
      ghost var l := local;
      var v := value;
      Take(n);
      if indexed {
        Add(n, v, evict, stores);
      }
      OneMoves(table, name, n, v, l);
      nameKeep, valueKeep, value, local := n, v, null, l;
    }

    method DropValue()
      requires Valid()
      modifies this`value, this`local, bufs
      ensures Valid() && local == old(local) && value == null
    {
      hide Marked, Refs, Counts, SlotRef;
      var v := value;
      ghost var l := local;
      Known(v, l + SlotRef(v));
      ValueMoves(table, name, v, nameKeep, valueKeep, l);
      value, local := null, l + SlotRef(v);
      GiveSlot(v);
      assert l + SlotRef(v) - SlotRef(v) == l;
    }

    method DropName()
      requires Valid()
      modifies this`name, this`local, bufs
      ensures Valid() && local == old(local) && name == null
    {
      hide Marked, Refs, Counts, SlotRef;
      var n := name;
      ghost var l := local;
      Known(n, l + SlotRef(n));
      NameMoves(table, n, value, nameKeep, valueKeep, l);
      name, local := null, l + SlotRef(n);
      GiveSlot(n);
      assert l + SlotRef(n) - SlotRef(n) == l;
    }

    /** `hd_context_shrink_table_size` and `hd_ringbuf_free`, as far as references go. */
    method EvictMany(n: nat)
      requires Valid() && n <= |table|
      modifies this`table, this`local, bufs
      ensures Valid() && local == old(local) && table == old(table[..|table| - n])
    {
      hide Marked, Refs, Counts;
      ghost var was := table;
      for i := 0 to n
        invariant Valid() && local == old(local) && bufs == old(bufs) && table == was[..|was| - i]
      {
        Evict();
      }
    }

    /** `nghttp2_hd_inflate_free` */
    method Free()
      requires Valid()
      modifies this`table, this`name, this`value, this`nameKeep, this`valueKeep, this`local, bufs
      ensures Valid() && bufs == old(bufs) && local == old(local) && Owned() == multiset{}
    {
      hide Marked, Refs, Counts, SlotRef;
      KeepFree();
      DropValue();
      DropName();
      EvictMany(|table|);
      NoRefs();
    }

    /** A buffer somebody holds has not been freed. */
    lemma HeldAlive(b: RcBuf)
      requires Valid() && b in Owned() + local
      ensures b.ref == -1 || b.ref == (Owned() + local)[b] > 0
      ensures b.frees == 0
    {
    }

    /** Without other holders, everything has been freed exactly once but for what was lost. */
    lemma AllFreed()
      requires Valid() && Owned() == multiset{} && forall b <- local :: b !in statics
      ensures (forall b <- bufs :: b.Freed()) <==> local == multiset{}
    {
      assert Owned() + local == local;
      assert forall b <- bufs :: b.Right(local[b]);
      if local != multiset{} {
        var b :| b in local;
        assert !b.Freed();
      }
    }

    // ---- Whole runs ----

    /** The decoder as far as it decides what can happen next. */
    ghost function View(): Shape
      reads this
    {
      Shape(at, name != null, value != null, calling, |table|)
    }

    /** The slots hold what the literal in progress needs; what they hold and what was lost is not static. */
    ghost predicate Consistent()
      reads this
    {
      && (at.WantValue? || at.Filled? ==>
            && (at.lit.FromSlot? ==> name != null)
            && (at.lit.FromTable? ==> at.lit.idx < |table|)
            && (at.lit.FromStatic? ==> at.lit.entry in statics))
      && (at.Filled? ==> value != null)
      && (calling ==> nameKeep == null && valueKeep == null)
      && statics <= bufs && name !in statics && value !in statics
    }

    /** One operation; a slot that is overwritten loses its reference. */
    method Perform(op: Op)
      requires Valid() && Consistent() && Can(View(), op) && op.Known(statics)
      modifies this, bufs
      ensures Valid() && Consistent() && View() == Next(old(View()), op)
      ensures old(bufs) <= bufs && fresh(bufs - old(bufs))
      ensures local == old(local) + if old(Overwrites(View(), op)) then SlotRef(old(if op.BeginName? then name else value)) else multiset{}
    {
      hide Marked, Refs, Counts, SlotRef;
      SlotRefs(null);
      match op {
        case Call =>
          KeepFree();
          calling := true;
        case OpenNew => at := WantName;
        case OpenIndexed(lit) => at := WantValue(lit);
        case BeginName(src) =>
          BeginName(src);
          at := WantValue(FromSlot);
        case BeginValue(src) =>
          BeginValue(src);
          at := Filled(at.lit);
        case Commit(indexed, evict, stores) => Commit(indexed, evict, stores);
        case EndHeaders =>
          KeepFree();
          at, calling := Between, false;
        case Shrink(evict) => EvictMany(evict);
      }
    }

    /** The end of a literal. */
    method Commit(indexed: bool, evict: nat, stores: bool)
      requires Valid() && Consistent() && Can(View(), Op.Commit(indexed, evict, stores))
      modifies this`table, this`name, this`value, this`nameKeep, this`valueKeep, this`local, this`at, this`calling, bufs
      ensures Valid() && Consistent() && local == old(local) && View() == Next(old(View()), Op.Commit(indexed, evict, stores))
    {
      hide Marked, Refs, Counts, SlotRef;
      match at.lit {
        case FromSlot => CommitNewname(indexed, evict, stores);
        case FromTable(idx) =>
          NameHeld(idx);
          CommitIndname(table[idx].name, indexed, evict, stores);
        case FromStatic(entry) =>
          StaticKnown(entry);
          CommitIndname(entry, indexed, evict, stores);
      }
      at, calling := Between, false;
    }

    lemma StaticKnown(b: RcBuf)
      requires Valid() && b in statics && statics <= bufs
      ensures b in bufs && b.ref == -1
    {
    }

    lemma NameHeld(idx: nat)
      requires Valid() && idx < |table|
      ensures table[idx].name in bufs && table[idx].name in Owned()
    {
      InTable(table, idx);
    }

    // ---- The encoder's operations ----

    /**
     * The part of `deflate_nv` that adds to the table: the name is a static one or a copy, and the
     * references of the function are given back, whether or not the entry was stored.
     */
    method DeflateAdd(entry: RcBuf?, nameSrc: Bytes, valueSrc: Bytes, evict: nat, stores: bool)
      requires Valid() && evict <= |table| && (entry != null ==> entry in statics) && statics <= bufs
      modifies this`table, this`local, this`bufs, bufs
      ensures Valid() && local == old(local) && old(bufs) <= bufs && fresh(bufs - old(bufs))
      ensures |table| == old(|table|) - evict + if stores then 1 else 0
    {
      hide Marked, Refs, Counts, SlotRef;
      ghost var l := local;
      var n;
      if entry != null {
        n := entry;
        StaticKnown(n);
        Take(n);
      } else {
        n := New(nameSrc);
      }
      var v := New(valueSrc);
      assert local == l + multiset{n} + multiset{v};
      Add(n, v, evict, stores);
      GiveBoth(n, v, l);
    }
  }

  lemma {:induction false} InTable(table: seq<Held>, idx: nat)
    requires idx < |table|
    ensures table[idx].name in TableRefs(table) && table[idx].value in TableRefs(table)
  {
    if idx > 0 {
      InTable(table[1..], idx - 1);
    }
  }

  // ---- What can happen, and what is lost ----

  /** Where the name of a literal comes from. */
  datatype Source = FromSlot | FromTable(idx: nat) | FromStatic(entry: RcBuf)

  /** Where the decoder is: before a name, before a value, or with both. */
  datatype At = Between | WantName | WantValue(lit: Source) | Filled(lit: Source)

  /** What the decoder does with references; `evict` and `stores` stand for what the sizes decide. */
  datatype Op =
    | Call
    | OpenNew
    | OpenIndexed(lit: Source)
    | BeginName(src: Bytes)
    | BeginValue(src: Bytes)
    | Commit(indexed: bool, evict: nat, stores: bool)
    | EndHeaders
    | Shrink(evict: nat)
  {
    ghost predicate Known(statics: set<RcBuf>)
    {
      this.OpenIndexed? && this.lit.FromStatic? ==> lit.entry in statics
    }
  }

  datatype Shape = Shape(at: At, name: bool, value: bool, calling: bool, size: nat)

  predicate Can(s: Shape, op: Op)
  {
    match op
    case Call => true
    case OpenNew => s.calling && s.at.Between?
    case OpenIndexed(lit) => s.calling && s.at.Between? && !lit.FromSlot? && (lit.FromTable? ==> lit.idx < s.size)
    case BeginName(_) => s.calling && s.at.WantName?
    case BeginValue(_) => s.calling && s.at.WantValue?
    case Commit(_, evict, _) => s.calling && s.at.Filled? && evict <= s.size
    case EndHeaders => true
    case Shrink(evict) => s.at.Between? && evict <= s.size
  }

  function Next(s: Shape, op: Op): Shape
    requires Can(s, op)
  {
    match op
    case Call => s.(calling := true)
    case OpenNew => s.(at := WantName)
    case OpenIndexed(lit) => s.(at := WantValue(lit))
    case BeginName(_) => s.(at := WantValue(FromSlot), name := true)
    case BeginValue(_) => s.(at := Filled(s.at.lit), value := true)
    case Commit(indexed, evict, stores) =>
      Shape(Between, if s.at.lit.FromSlot? then false else s.name, false, false,
            if indexed then s.size - evict + (if stores then 1 else 0) else s.size)
    case EndHeaders => s.(at := Between, calling := false)
    case Shrink(evict) => s.(size := s.size - evict)
  }

  /** A string begins whose slot still holds another. */
  predicate Overwrites(s: Shape, op: Op)
  {
    (op.BeginName? && s.name) || (op.BeginValue? && s.value)
  }

  const START := Shape(Between, false, false, false, 0)

  predicate Legal(ops: seq<Op>)
    decreases |ops|, 0
  {
    ops == [] || (Legal(ops[..|ops| - 1]) && Can(After(ops[..|ops| - 1]), ops[|ops| - 1]))
  }

  function After(ops: seq<Op>): Shape
    requires Legal(ops)
    decreases |ops|, 1
  {
    if ops == [] then START else Next(After(ops[..|ops| - 1]), ops[|ops| - 1])
  }

  predicate Loses(ops: seq<Op>)
    requires Legal(ops)
  {
    ops != [] && (Loses(ops[..|ops| - 1]) || Overwrites(After(ops[..|ops| - 1]), ops[|ops| - 1]))
  }

  /** Over a run that ends with the decoder being freed, everything is freed exactly once if and only if no slot was overwritten. */
  method Run(statics: set<RcBuf>, ops: seq<Op>) returns (h: Holder)
    requires forall b <- statics :: b.ref == -1 && b.frees == 0
    requires Legal(ops) && forall op <- ops :: op.Known(statics)
    modifies statics
    ensures statics <= h.bufs && ((forall b <- h.bufs :: b.Freed()) <==> !Loses(ops))
  {
    hide Counts, Refs, RcBuf.Right;
    h := new Holder(statics);
    assert ops[..0] == [];
    for i := 0 to |ops|
      invariant h.Valid() && h.Consistent() && h.statics == statics && fresh(h) && fresh(h.bufs - statics)
      invariant Legal(ops[..i]) && h.View() == After(ops[..i])
      invariant (forall b <- h.local :: b !in statics) && (h.local == multiset{} <==> !Loses(ops[..i]))
    {
      LegalPrefix(ops, i + 1);
      assert ops[..i + 1][..i] == ops[..i] && ops[i] in ops;
      h.Perform(ops[i]);
    }
    assert ops[..|ops|] == ops;
    h.Free();
    h.AllFreed();
  }

  lemma {:induction false} LegalPrefix(ops: seq<Op>, n: nat)
    requires Legal(ops) && n <= |ops|
    ensures Legal(ops[..n])
    decreases |ops|
  {
    if n < |ops| {
      LegalPrefix(ops[..|ops| - 1], n);
      assert ops[..|ops| - 1][..n] == ops[..n];
    } else {
      assert ops[..n] == ops;
    }
  }

  // ---- When something is lost ----

  /** The slot of the name, or of the value, is filled though no literal in progress has filled it. */
  predicate Stray(s: Shape, name: bool)
  {
    if name then s.name && !((s.at.WantValue? || s.at.Filled?) && s.at.lit.FromSlot?)
    else s.value && !s.at.Filled?
  }

  /** The operation fills the slot. */
  predicate Begins(op: Op, name: bool)
  {
    if name then op.BeginName? else op.BeginValue?
  }

  lemma StrayStep(s: Shape, op: Op, name: bool)
    requires Can(s, op)
    ensures Stray(Next(s, op), name) ==> Stray(s, name) || (op.EndHeaders? && if name then s.name else s.value)
    ensures Stray(s, name) ==> if Begins(op, name) then Overwrites(s, op) else Stray(Next(s, op), name)
    ensures Overwrites(s, op) && Begins(op, name) ==> Stray(s, name)
    ensures op.EndHeaders? && (if name then s.name else s.value) ==> Stray(Next(s, op), name)
  {
  }

  /** At `i` a block is ended in the middle of a literal whose slot a later string, at `j`, takes over. */
  predicate LeavesBehind(ops: seq<Op>, i: nat, j: nat)
    requires Legal(ops)
  {
    i < j < |ops| && ops[i].EndHeaders? && (LegalPrefix(ops, i); Overwrites(After(ops[..i]), ops[j]))
  }

  lemma {:induction false} StrayFrom(ops: seq<Op>, name: bool) returns (i: nat)
    requires Legal(ops) && Stray(After(ops), name)
    ensures i < |ops| && ops[i].EndHeaders? && Legal(ops[..i])
    ensures if name then After(ops[..i]).name else After(ops[..i]).value
    decreases |ops|
  {
    var s, op := After(ops[..|ops| - 1]), ops[|ops| - 1];
    StrayStep(s, op, name);
    if Stray(s, name) {
      i := StrayFrom(ops[..|ops| - 1], name);
      assert ops[..|ops| - 1][..i] == ops[..i];
    } else {
      i := |ops| - 1;
    }
  }

  lemma {:induction false} StaysStray(ops: seq<Op>, i: nat, name: bool)
    requires Legal(ops) && i < |ops| && ops[i].EndHeaders? && Legal(ops[..i])
    requires if name then After(ops[..i]).name else After(ops[..i]).value
    ensures Loses(ops) || Stray(After(ops), name)
    decreases |ops|
  {
    var ops', op := ops[..|ops| - 1], ops[|ops| - 1];
    StrayStep(After(ops'), op, name);
    if i < |ops| - 1 {
      assert ops'[..i] == ops[..i];
      StaysStray(ops', i, name);
    }
  }

  lemma {:induction false} StaysLost(ops: seq<Op>, n: nat)
    requires Legal(ops) && n <= |ops| && Legal(ops[..n]) && Loses(ops[..n])
    ensures Loses(ops)
    decreases |ops|
  {
    if n < |ops| {
      assert ops[..|ops| - 1][..n] == ops[..n];
      StaysLost(ops[..|ops| - 1], n);
    } else {
      assert ops[..n] == ops;
    }
  }

  lemma {:induction false} LosesBecause(ops: seq<Op>) returns (i: nat, j: nat)
    requires Legal(ops) && Loses(ops)
    ensures LeavesBehind(ops, i, j)
    decreases |ops|
  {
    var ops' := ops[..|ops| - 1];
    if Loses(ops') {
      i, j := LosesBecause(ops');
      assert ops'[..i] == ops[..i];
    } else {
      j := |ops| - 1;
      var name := ops[j].BeginName?;
      StrayStep(After(ops'), ops[j], name);
      i := StrayFrom(ops', name);
      assert ops'[..i] == ops[..i];
    }
  }

  /**
   * A run loses a buffer if and only if some block is ended in the middle of a literal, by
   * `nghttp2_hd_inflate_end_headers`, and a later literal uses the slot that was left filled.
   */
  lemma LosesExactly(ops: seq<Op>)
    requires Legal(ops)
    ensures Loses(ops) <==> exists i: nat, j: nat :: LeavesBehind(ops, i, j)
  {
    hide Legal, Loses, LeavesBehind;
    if Loses(ops) {
      var i, j := LosesBecause(ops);
    }
    forall i: nat, j: nat | LeavesBehind(ops, i, j)
      ensures Loses(ops)
    {
      BehindLoses(ops, i, j);
    }
  }

  lemma BehindLoses(ops: seq<Op>, i: nat, j: nat)
    requires Legal(ops) && LeavesBehind(ops, i, j)
    ensures Loses(ops)
  {
    var name := ops[j].BeginName?;
    LegalPrefix(ops, i);
    LegalPrefix(ops, j);
    LegalPrefix(ops, j + 1);
    assert ops[..j][..i] == ops[..i] && ops[..j + 1][..j] == ops[..j];
    hide Legal, After, Next, Can;
    StaysStray(ops[..j], i, name);
    StrayStep(After(ops[..j]), ops[j], name);
    StaysLost(ops, j + 1);
  }

  /** In particular nothing is lost if every block is ended with both slots empty, as it is between literals. */
  lemma NothingLost(ops: seq<Op>)
    requires Legal(ops)
    requires forall i: nat | i < |ops| && ops[i].EndHeaders? :: Legal(ops[..i]) && !After(ops[..i]).name && !After(ops[..i]).value
    ensures !Loses(ops)
  {
    if Loses(ops) {
      var i, j := LosesBecause(ops);
      assert false;
    }
  }

  // ---- The input that loses a buffer ----

  /** Two bytes open a literal with a new name of three bytes. */
  const OPENING: Bytes := [0x40, 3]

  /** What they do with references, twice, the block being ended in between. */
  function LosingRun(): seq<Op>
  {
    [Call, OpenNew, BeginName([]), EndHeaders, Call, OpenNew, BeginName([])]
  }

  lemma LegalStep(ops: seq<Op>, op: Op)
    requires Legal(ops) && Can(After(ops), op)
    ensures Legal(ops + [op]) && After(ops + [op]) == Next(After(ops), op)
    ensures Loses(ops + [op]) <==> Loses(ops) || Overwrites(After(ops), op)
  {
    assert (ops + [op])[..|ops|] == ops;
  }

  lemma LosingRunLoses()
    ensures Legal(LosingRun()) && Loses(LosingRun())
  {
    var r1 := [Call];
    var r2 := r1 + [OpenNew];
    var r3 := r2 + [BeginName([])];
    var r4 := r3 + [EndHeaders];
    var r5 := r4 + [Call];
    var r6 := r5 + [OpenNew];
    assert [] + [Call] == r1 && r6 + [BeginName([])] == LosingRun();
    LegalStep([], Call);
    hide Legal, After, Loses;
    LegalStep(r1, OpenNew);
    LegalStep(r2, BeginName([]));
    LegalStep(r3, EndHeaders);
    LegalStep(r4, Call);
    LegalStep(r5, OpenNew);
    LegalStep(r6, BeginName([]));
  }

  /** The byte-wise decoder waits for the name after the two bytes, and again after them once the block was ended. */
  lemma LosingInput(c: Codec)
    requires Usable(c)
    ensures var d := D.NewDecoder();
            D.Valid(c, d) && D.Run(c, d, OPENING).Next?
            && var d1 := D.Run(c, d, OPENING).d;
            d1.phase == D.ReadRaw(D.Name) && D.Valid(c, d1.(phase := D.Start))
            && D.Run(c, d1.(phase := D.Start), OPENING).Next? && D.Run(c, d1.(phase := D.Start), OPENING).d.phase == D.ReadRaw(D.Name)
  {
    var d := D.NewDecoder();
    Opened(c, d);
    Opened(c, D.Run(c, d, OPENING).d.(phase := D.Start));
  }

  lemma Three()
    ensures P.Resume(0, 0, [3], 7) == P.Complete(3, 1, 0)
  {
    Pow2Small();
  }

  lemma Opened(c: Codec, d: D.Decoder)
    requires Usable(c) && D.Valid(c, d) && d.phase == D.Start
    ensures var r := D.Run(c, d, OPENING);
            r.Next? && r.d.phase == D.ReadRaw(D.Name) && D.Valid(c, r.d.(phase := D.Start))
  {
    Three();
    hide P.Resume, D.Commit, D.Received, D.ReceivedHuff;
    var d1 := D.OpcodeByte(d, 0x40).d;
    assert D.OnByte(c, d, 0x40) == D.Next(d1, []);
    var d2 := D.ToLen(d1, D.Name, 3);
    assert OPENING[1..] == [3] && [3][1..] == [];
    assert D.OnByte(c, d1, 3) == D.IntByte(c, d2, 3) == D.Next(D.AtBody(d2.(num := D.Number(3, 0))), []);
  }

  // ---- The encoder ----

  /** What the encoder does with references: an addition to its table, or an eviction. */
  datatype EncoderOp = Adds(entry: RcBuf?, name: Bytes, value: Bytes, evict: nat, stores: bool) | Shrinks(evict: nat)
  {
    ghost predicate Known(statics: set<RcBuf>)
    {
      this.Adds? && entry != null ==> entry in statics
    }
  }

  /** The size of the table after some operations, -1 if they evict more than there is. */
  function SizeAfter(ops: seq<EncoderOp>): int
  {
    if ops == [] then 0
    else
      var n, op := SizeAfter(ops[..|ops| - 1]), ops[|ops| - 1];
      if n < op.evict then -1 else n - op.evict + if op.Adds? && op.stores then 1 else 0
  }

  /** Over every run of the encoder everything is freed exactly once, static entries never. */
  method RunEncoder(statics: set<RcBuf>, ops: seq<EncoderOp>) returns (h: Holder)
    requires forall b <- statics :: b.ref == -1 && b.frees == 0
    requires (forall op <- ops :: op.Known(statics)) && SizeAfter(ops) >= 0
    modifies statics
    ensures statics <= h.bufs && forall b <- h.bufs :: b.Freed()
  {
    hide Counts, Refs, Marked, RcBuf.Right;
    h := new Holder(statics);
    assert ops[..0] == [];
    for i := 0 to |ops|
      invariant h.Valid() && h.statics == statics <= h.bufs && fresh(h) && fresh(h.bufs - statics)
      invariant h.local == multiset{} && |h.table| == SizeAfter(ops[..i])
    {
      SizePrefix(ops, i + 1);
      assert ops[..i + 1][..i] == ops[..i] && ops[i] in ops;
      match ops[i] {
        case Adds(entry, name, value, evict, stores) => h.DeflateAdd(entry, name, value, evict, stores);
        case Shrinks(evict) => h.EvictMany(evict);
      }
    }
    h.Free();
    h.AllFreed();
  }

  lemma {:induction false} SizePrefix(ops: seq<EncoderOp>, n: nat)
    requires SizeAfter(ops) >= 0 && n <= |ops|
    ensures SizeAfter(ops[..n]) >= 0
    decreases |ops|
  {
    if n < |ops| {
      SizePrefix(ops[..|ops| - 1], n);
      assert ops[..|ops| - 1][..n] == ops[..n];
    } else {
      assert ops[..n] == ops;
    }
  }

  lemma BothMove(t: seq<Held>, n: RcBuf, v: RcBuf)
    ensures Refs(t, n, v, null, null) == Refs(t, null, null, n, v)
  {
  }

  lemma OneMoves(t: seq<Held>, name: RcBuf?, n: RcBuf, v: RcBuf, local: multiset<RcBuf>)
    ensures Refs(t, name, v, null, null) + (local + multiset{n}) == Refs(t, name, null, n, v) + local
  {
  }
}
