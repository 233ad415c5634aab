/** The hash map through which the encoder finds entries of its dynamic table. */
module HdMaps {
  import opened Bits
  import opened HeaderTable
  import opened RingBuffers

  const HD_MAP_SIZE: nat := 128

  /** `hash & (HD_MAP_SIZE - 1)` */
  function BucketOf(hash: nat): (b: nat)
    ensures b < HD_MAP_SIZE
  {
    hash % HD_MAP_SIZE
  }

  ghost predicate Distinct(entries: seq<Entry>)
  {
    forall i, j :: 0 <= i < j < |entries| ==> entries[i] != entries[j]
  }

  /** The entries of one bucket, in order. */
  ghost function Bucket(entries: seq<Entry>, b: nat): (r: seq<Entry>)
    ensures forall e <- r :: e in entries && BucketOf(e.hash) == b
    ensures Distinct(entries) ==> Distinct(r)
  {
    if entries == [] then []
    else
      var rest := Bucket(entries[1..], b);
      if BucketOf(entries[0].hash) == b then [entries[0]] + rest else rest
  }

  function Link(s: seq<Entry>, i: nat): Entry?
  {
    if i < |s| then s[i] else null
  }

  /** The `next` links from `p` on pass through exactly these entries. */
  ghost predicate Linked(p: Entry?, s: seq<Entry>, among: seq<Entry>)
    requires forall e <- s :: e in among
    reads among
  {
    p == Link(s, 0) && forall i: nat :: i < |s| ==> assert s[i] in s; s[i].next == Link(s, i + 1)
  }

  // ---- Looking up ----

  /** The newest entry with a name. */
  ghost function FirstNamed(entries: seq<Entry>, name: Bytes): Entry?
  {
    if entries == [] then null
    else if entries[0].field.name == name then entries[0]
    else FirstNamed(entries[1..], name)
  }

  ghost function FirstEqual(entries: seq<Entry>, f: Field): Entry?
  {
    if entries == [] then null
    else if entries[0].field == f then entries[0]
    else FirstEqual(entries[1..], f)
  }

  /** The table the entries stand for. */
  ghost function Fields(entries: seq<Entry>): Table
  {
    seq(|entries|, i requires 0 <= i < |entries| => entries[i].field)
  }

  lemma {:induction false} FirstNamedAt(entries: seq<Entry>, name: Bytes)
    ensures var i := FirstName(Fields(entries), name);
            FirstNamed(entries, name) == if i == -1 then null else entries[i]
  {
    if entries != [] {
      assert Fields(entries)[1..] == Fields(entries[1..]);
      FirstNamedAt(entries[1..], name);
    }
  }

  lemma {:induction false} FirstEqualAt(entries: seq<Entry>, f: Field)
    ensures var i := FirstExact(Fields(entries), f);
            FirstEqual(entries, f) == if i == -1 then null else entries[i]
  {
    if entries != [] {
      assert Fields(entries)[1..] == Fields(entries[1..]);
      FirstEqualAt(entries[1..], f);
    }
  }

  /** `deflate_nv`: the hash of a name; static names have theirs in the static table. */
  function HashOf(d: Dictionary, name: Bytes): nat
    requires |d.staticHash| == STATIC_LENGTH
  {
    var token := d.lookupToken(name);
    if token == -1 then d.nameHash(name)
    else if 0 <= token <= MAX_STATIC_TOKEN then d.staticHash[token]
    else 0
  }

  /** Entries carry the token and the hash of their names. */
  ghost predicate Tagged(d: Dictionary, entries: seq<Entry>)
    requires |d.staticHash| == STATIC_LENGTH
  {
    forall e <- entries :: e.token == d.lookupToken(e.field.name) && e.hash == HashOf(d, e.field.name)
  }

  /** All entries with the same name are in the same bucket. */
  lemma {:induction false} BucketHasNamed(d: Dictionary, entries: seq<Entry>, f: Field)
    requires |d.staticHash| == STATIC_LENGTH && Tagged(d, entries)
    ensures var s := Bucket(entries, BucketOf(HashOf(d, f.name)));
            FirstNamed(s, f.name) == FirstNamed(entries, f.name) && FirstEqual(s, f) == FirstEqual(entries, f)
  {
    if entries != [] {
      var b := BucketOf(HashOf(d, f.name));
      assert Tagged(d, entries[1..]);
      BucketHasNamed(d, entries[1..], f);
      if BucketOf(entries[0].hash) == b {
        assert Bucket(entries, b)[1..] == Bucket(entries[1..], b);
      }
    }
  }

  /** The test of `hd_map_find` accepts exactly the entries with the right name. */
  lemma TestIsName(d: Dictionary, e: Entry, name: Bytes)
    requires WellFormed(d) && Tagged(d, [e])
    ensures var token, hash := d.lookupToken(name), HashOf(d, name);
            !(token != e.token || (token == -1 && (hash != e.hash || e.field.name != name))) <==> e.field.name == name
  {
    assert e in [e];
  }

  class HdMap {
    const table: array<Entry?>

    ghost predicate Valid(entries: seq<Entry>)
      reads table, entries
    {
      && table.Length == HD_MAP_SIZE && Distinct(entries)
      && forall b: nat :: b < HD_MAP_SIZE ==> Linked(table[b], Bucket(entries, b), entries)
    }

    /** `hd_map_init` */
    constructor ()
      ensures Valid([]) && fresh(table)
    {
      table := new Entry?[HD_MAP_SIZE](_ => null);
    }

    /**
     * `hd_map_find`: what a newest-first scan of the whole table would find, the first exact match
     * and otherwise the first with the name.
     */
    method Find(d: Dictionary, f: Field, token: int, hash: nat, nameOnly: bool, ghost entries: seq<Entry>)
      returns (res: Entry?, exact: bool)
      requires WellFormed(d) && Valid(entries) && Tagged(d, entries)
      requires token == d.lookupToken(f.name) && hash == HashOf(d, f.name)
      ensures var r := Scan(Fields(entries), f, nameOnly);
              exact == r.exact && res == if r.index == -1 then null else entries[r.index]
    {
      ghost var s := Bucket(entries, BucketOf(hash));
      BucketHasNamed(d, entries, f);
      FirstNamedAt(entries, f.name);
      FirstEqualAt(entries, f);
      res, exact := null, false;
      var p := table[BucketOf(hash)];
      ghost var i: nat := 0;
      while p != null
        invariant i <= |s| && p == Link(s, i)
        invariant FirstNamed(s, f.name) == if res != null then res else FirstNamed(s[i..], f.name)
        invariant !nameOnly ==> FirstEqual(s, f) == FirstEqual(s[i..], f)
        invariant nameOnly ==> res == null
        decreases |s| - i
      {
        assert s[i..][1..] == s[i + 1..];
        assert p == s[i..][0] && p in s;
        assert Tagged(d, [p]);
        TestIsName(d, p, f.name);
        if !(token != p.token || (token == -1 && (hash != p.hash || p.field.name != f.name))) {
          if res == null {
            res := p;
            if nameOnly {
              return;
            }
          }
          if p.field.value == f.value {
            res, exact := p, true;
            return;
          }
        }
        p, i := p.next, i + 1;
      }
    }

    /** `hd_map_insert`: the newest entry goes to the front of its bucket. */
    method Insert(ent: Entry, ghost entries: seq<Entry>)
      requires Valid(entries) && ent !in entries && ent.next == null
      modifies table, ent
      ensures Valid([ent] + entries)
    {
      var b := BucketOf(ent.hash);
      ghost var was := table[..];
      if table[b] != null {
        ent.next := table[b];
      }
      table[b] := ent;
      assert ([ent] + entries)[1..] == entries;
      forall b': nat | b' < HD_MAP_SIZE
        ensures Linked(table[b'], Bucket([ent] + entries, b'), [ent] + entries)
      {
        assert Linked(was[b'], Bucket(entries, b'), entries);
      }
    }

    /** `hd_map_remove` */
    method Remove(ent: Entry, ghost entries: seq<Entry>)
      requires Valid(entries)
      modifies table, entries
      ensures Valid(Without(entries, ent)) && (ent in entries ==> ent.next == null)
    {
      var b := BucketOf(ent.hash);
      ghost var s := Bucket(entries, b);
      var prev: Entry? := null;
      var p := table[b];
      ghost var i: nat := 0;
      while p != null && p != ent
        invariant i <= |s| && p == Link(s, i) && prev == (if i == 0 then null else s[i - 1])
        invariant ent !in s[..i]
        decreases |s| - i
      {
        assert s[..i + 1] == s[..i] + [s[i]];
        prev, p, i := p, p.next, i + 1;
      }
      assert s[..|s|] == s;
      if p == null {
        if ent in entries {
          InBucket(entries, ent);
        }
        WithoutAbsent(entries, ent);
      } else if prev == null {
        UnlinkFirst(ent, entries);
      } else {
        assert prev in s;
        UnlinkAfter(prev, ent, i, entries);
      }
    }

    /** Takes the first entry out of its bucket. */
    method UnlinkFirst(ent: Entry, ghost entries: seq<Entry>)
      requires Valid(entries) && Link(Bucket(entries, BucketOf(ent.hash)), 0) == ent
      modifies table, ent
      ensures Valid(Without(entries, ent)) && ent.next == null
    {
      var b := BucketOf(ent.hash);
      table[b] := ent.next;
      ent.next := null;
      forall b': nat | b' < HD_MAP_SIZE
        ensures Linked(table[b'], Bucket(Without(entries, ent), b'), Without(entries, ent))
      {
        ghost var s := Bucket(entries, b');
        BucketWithout(entries, ent, b');
        if b' == b {
          WithoutAt(s, 0);
        } else {
          WithoutAbsent(s, ent);
        }
      }
    }

    /** Takes out the entry after `prev`. */
    method UnlinkAfter(prev: Entry, ent: Entry, ghost i: nat, ghost entries: seq<Entry>)
      requires Valid(entries) && 0 < i
      requires var s := Bucket(entries, BucketOf(ent.hash)); Link(s, i) == ent && s[i - 1] == prev
      modifies prev, ent
      ensures Valid(Without(entries, ent)) && ent.next == null
    {
      prev.next := ent.next;
      ent.next := null;
      forall b': nat | b' < HD_MAP_SIZE
        ensures Linked(table[b'], Bucket(Without(entries, ent), b'), Without(entries, ent))
      {
        ghost var s := Bucket(entries, b');
        BucketWithout(entries, ent, b');
        if b' == BucketOf(ent.hash) {
          WithoutAt(s, i);
          ghost var rest := Without(s, ent);
          forall k: nat | k < |rest|
            ensures rest[k] != ent && rest[k].next == Link(rest, k + 1)
          {
            assert rest[k] == if k < i then s[k] else s[k + 1];
          }
        } else {
          WithoutAbsent(s, ent);
        }
      }
    }
  }

  lemma {:induction false} InBucket(entries: seq<Entry>, ent: Entry)
    requires ent in entries
    ensures ent in Bucket(entries, BucketOf(ent.hash))
  {
    if entries[0] != ent {
      InBucket(entries[1..], ent);
    }
  }

  /** The entries but one. */
  ghost function Without(entries: seq<Entry>, ent: Entry): (r: seq<Entry>)
    ensures forall e <- r :: e in entries && e != ent
    ensures Distinct(entries) ==> Distinct(r)
  {
    if entries == [] then []
    else
      assert Distinct(entries) ==> entries[0] !in entries[1..];
      var rest := Without(entries[1..], ent);
      if entries[0] == ent then rest else [entries[0]] + rest
  }

  lemma {:induction false} BucketWithout(entries: seq<Entry>, ent: Entry, b: nat)
    ensures Bucket(Without(entries, ent), b) == Without(Bucket(entries, b), ent)
  {
    if entries != [] {
      BucketWithout(entries[1..], ent, b);
      var rest := Without(entries[1..], ent);
      assert ([entries[0]] + rest)[1..] == rest;
      assert ([entries[0]] + Bucket(entries[1..], b))[1..] == Bucket(entries[1..], b);
    }
  }

  lemma {:induction false} WithoutAbsent(s: seq<Entry>, ent: Entry)
    requires ent !in s
    ensures Without(s, ent) == s
  {
    if s != [] {
      WithoutAbsent(s[1..], ent);
    }
  }

  lemma {:induction false} WithoutAt(s: seq<Entry>, i: nat)
    requires Distinct(s) && i < |s|
    ensures Without(s, s[i]) == s[..i] + s[i + 1..]
  {
    if i == 0 {
      WithoutAbsent(s[1..], s[0]);
    } else {
      WithoutAt(s[1..], i - 1);
      assert s[1..][..i - 1] == s[1..i] && s[1..][i..] == s[i + 1..];
      assert s[..i] == [s[0]] + s[1..i];
    }
  }
}
