/** The header tables of HPACK as values: sections 2.3, 3.2 and 4 of RFC 7541. */
module HeaderTable {
  import opened Bits

  datatype Field = Field(name: Bytes, value: Bytes)

  /** A dynamic table, newest entry first. */
  type Table = seq<Field>

  const ENTRY_OVERHEAD: nat := 32
  const STATIC_LENGTH: nat := 61

  /** `entry_room`, section 4.1. */
  function EntryRoom(f: Field): nat
  {
    ENTRY_OVERHEAD + |f.name| + |f.value|
  }

  function Size(t: Table): nat
  {
    if t == [] then 0 else Size(t[..|t| - 1]) + EntryRoom(t[|t| - 1])
  }

  lemma {:induction false} SizeCons(f: Field, t: Table)
    ensures Size([f] + t) == EntryRoom(f) + Size(t)
  {
    if t == [] {
      assert ([f] + t)[..0] == [] && ([f] + t)[0] == f;
    } else {
      assert ([f] + t)[..|t|] == [f] + t[..|t| - 1];
      SizeCons(f, t[..|t| - 1]);
    }
  }

  /** Entries are never free, so the number of entries is bounded by the size. */
  lemma {:induction false} SizeCount(t: Table)
    ensures ENTRY_OVERHEAD * |t| <= Size(t)
  {
    if t != [] {
      SizeCount(t[..|t| - 1]);
    }
  }

  /** Drops the oldest entries until the rest fits, sections 4.3 and 4.4. */
  function Evict(t: Table, limit: nat): (r: Table)
    ensures r <= t && Size(r) <= limit
  {
    if Size(t) <= limit then t else
      assert t[..|t| - 1] <= t;
      Evict(t[..|t| - 1], limit)
  }

  /** Eviction removes no more than it has to: any longer prefix is too large. */
  lemma {:induction false} EvictFewest(t: Table, limit: nat, n: nat)
    requires |Evict(t, limit)| < n <= |t|
    ensures Size(t[..n]) > limit
  {
    if n == |t| {
      assert t[..n] == t;
    } else {
      assert t[..|t| - 1][..n] == t[..n];
      if Size(t) > limit {
        EvictFewest(t[..|t| - 1], limit, n);
      }
    }
  }

  lemma EvictFits(t: Table, limit: nat)
    requires Size(t) <= limit
    ensures Evict(t, limit) == t
  {
  }

  /** Several evictions amount to one, down to the smallest limit. */
  lemma {:induction false} EvictTwice(t: Table, a: nat, b: nat)
    ensures Evict(Evict(t, a), b) == Evict(t, if a < b then a else b)
    decreases |t|
  {
    if Size(t) > a {
      EvictTwice(t[..|t| - 1], a, b);
      if b < a {
        assert Size(t) > b;
      }
    } else if Size(t) > b {
      assert Evict(t, a) == t;
    }
  }

  /** Adding an entry, section 4.4: an entry larger than the whole table empties it. */
  function Add(t: Table, f: Field, max: nat): (r: Table)
    ensures Size(r) <= max
  {
    if EntryRoom(f) > max then []
    else
      SizeCons(f, Evict(t, max - EntryRoom(f)));
      [f] + Evict(t, max - EntryRoom(f))
  }

  /** Adding is evicting from the table with the new entry in front. */
  lemma {:induction false} AddEvicts(t: Table, f: Field, max: nat)
    ensures Add(t, f, max) == Evict([f] + t, max)
    decreases |t|
  {
    SizeCons(f, t);
    if t == [] {
      assert [f] + t == [f] && [f][..0] == [];
    } else {
      assert ([f] + t)[..|t|] == [f] + t[..|t| - 1];
      AddEvicts(t[..|t| - 1], f, max);
    }
  }

  // ---- Static table and names ----

  /**
   * `static_table`, `lookup_token` and the hashes: the token of a static name is the index of its
   * first static entry; `nameHash` hashes the names without a token.
   */
  datatype Dictionary = Dictionary(
    entries: seq<Field>, staticHash: seq<nat>, lookupToken: Bytes -> int, nameHash: Bytes -> nat)

  const MAX_STATIC_TOKEN: int := 60

  ghost predicate WellFormed(d: Dictionary)
  {
    && |d.entries| == |d.staticHash| == STATIC_LENGTH
    && (forall n: Bytes :: -1 <= d.lookupToken(n))
    && (forall n: Bytes, n': Bytes :: d.lookupToken(n) == d.lookupToken(n') >= 0 ==> n == n')
    && (forall n: Bytes :: 0 <= d.lookupToken(n) <= MAX_STATIC_TOKEN ==> d.entries[d.lookupToken(n)].name == n)
    && (forall i :: 0 <= i < STATIC_LENGTH ==> 0 <= d.lookupToken(d.entries[i].name) <= i)
    && Grouped(d)
  }

  /** Static entries with the same name stand together. */
  predicate Grouped(d: Dictionary)
    requires |d.entries| == STATIC_LENGTH
  {
    forall i, j :: 0 <= j <= i < STATIC_LENGTH && d.lookupToken(d.entries[i].name) <= j ==> d.entries[j].name == d.entries[i].name
  }

  /** The entry at an index of the combined address space, counted from zero. */
  function At(d: Dictionary, t: Table, idx: nat): Field
    requires |d.entries| == STATIC_LENGTH && idx < STATIC_LENGTH + |t|
  {
    if idx >= STATIC_LENGTH then t[idx - STATIC_LENGTH] else d.entries[idx]
  }

  // ---- Searching ----

  /** The newest entry with the name, or -1. */
  function FirstName(t: Table, name: Bytes): (i: int)
    ensures -1 <= i < |t| && (i >= 0 ==> t[i].name == name)
    ensures forall j :: 0 <= j < (if i >= 0 then i else |t|) ==> t[j].name != name
  {
    if t == [] then -1
    else if t[0].name == name then 0
    else
      var i := FirstName(t[1..], name);
      assert forall j :: 1 <= j < |t| ==> t[j] == t[1..][j - 1];
      if i == -1 then -1 else i + 1
  }

  /** The newest entry equal to the field, or -1. */
  function FirstExact(t: Table, f: Field): (i: int)
    ensures -1 <= i < |t| && (i >= 0 ==> t[i] == f)
    ensures forall j :: 0 <= j < (if i >= 0 then i else |t|) ==> t[j] != f
  {
    if t == [] then -1
    else if t[0] == f then 0
    else
      var i := FirstExact(t[1..], f);
      assert forall j :: 1 <= j < |t| ==> t[j] == t[1..][j - 1];
      if i == -1 then -1 else i + 1
  }

  /** Where a field was found: -1 for nowhere; `exact` if name and value match. */
  datatype Found = Found(index: int, exact: bool)

  /** What a newest-first scan of the whole dynamic table finds. */
  function Scan(t: Table, f: Field, nameOnly: bool): (r: Found)
    ensures -1 <= r.index < |t|
    ensures r.index >= 0 ==> t[r.index].name == f.name
    ensures r.exact ==> !nameOnly && r.index >= 0 && t[r.index] == f
  {
    if !nameOnly && FirstExact(t, f) >= 0 then Found(FirstExact(t, f), true)
    else Found(FirstName(t, f.name), false)
  }

  /** `search_static_table` from entry `i` on, among the entries with the token's name. */
  function ScanStatic(d: Dictionary, f: Field, token: nat, i: nat): (r: Found)
    requires |d.entries| == STATIC_LENGTH && token < STATIC_LENGTH
    ensures 0 <= r.index < STATIC_LENGTH
    ensures r.exact ==> d.entries[r.index].value == f.value && d.lookupToken(d.entries[r.index].name) == token
    ensures !r.exact ==> r.index == token
    decreases STATIC_LENGTH - i
  {
    if i < STATIC_LENGTH && d.lookupToken(d.entries[i].name) == token then
      if d.entries[i].value == f.value then Found(i, true) else ScanStatic(d, f, token, i + 1)
    else Found(token, false)
  }

  /** `search_hd_table`: the index the encoder uses for a field, in the combined address space. */
  function Search(d: Dictionary, t: Table, f: Field, nameOnly: bool): (r: Found)
    requires WellFormed(d)
    ensures -1 <= r.index < STATIC_LENGTH + |t|
    ensures r.index >= 0 ==> At(d, t, r.index).name == f.name
    ensures r.exact ==> !nameOnly && r.index >= 0 && At(d, t, r.index) == f
  {
    var token := d.lookupToken(f.name);
    var found := Scan(t, f, nameOnly);
    if !found.exact && 0 <= token <= MAX_STATIC_TOKEN then
      if nameOnly then Found(token, false) else ScanStatic(d, f, token, token)
    else if found.index == -1 then Found(-1, false)
    else Found(found.index + STATIC_LENGTH, found.exact)
  }

  // ---- What a search finds ----

  /** The search of the static entries finds the first with the value, if there is one. */
  lemma {:induction false} ScanStaticFinds(d: Dictionary, f: Field, token: nat, i: nat)
    requires WellFormed(d) && token == d.lookupToken(f.name) <= MAX_STATIC_TOKEN && token <= i
    ensures var r := ScanStatic(d, f, token, i);
            if r.exact then i <= r.index && d.entries[r.index] == f && forall j :: i <= j < r.index ==> d.entries[j] != f
            else r.index == token && forall j :: i <= j < STATIC_LENGTH ==> d.entries[j] != f
    decreases STATIC_LENGTH - i
  {
    if i < STATIC_LENGTH {
      if d.lookupToken(d.entries[i].name) == token {
        assert d.entries[i].name == f.name;
        if d.entries[i].value != f.value {
          ScanStaticFinds(d, f, token, i + 1);
        }
      } else {
        forall j | i <= j < STATIC_LENGTH
          ensures d.entries[j] != f
        {
        }
      }
    }
  }

  predicate Named(s: seq<Field>, name: Bytes)
  {
    exists e <- s :: e.name == name
  }

  predicate FirstWithName(s: seq<Field>, name: Bytes, i: int)
  {
    0 <= i < |s| && s[i].name == name && forall j :: 0 <= j < i ==> s[j].name != name
  }

  predicate First(s: seq<Field>, f: Field, i: int)
  {
    0 <= i < |s| && s[i] == f && forall j :: 0 <= j < i ==> s[j] != f
  }

  /** A field of the dynamic table is found at its newest place. */
  lemma SearchDynamic(d: Dictionary, t: Table, f: Field)
    requires WellFormed(d) && f in t
    ensures var r := Search(d, t, f, false); r.exact && First(t, f, r.index - STATIC_LENGTH)
  {
    assert FirstExact(t, f) >= 0;
  }

  /** Any other field of the static table is found at its first place there, and no other field exactly. */
  lemma SearchStatic(d: Dictionary, t: Table, f: Field)
    requires WellFormed(d) && f !in t
    ensures var r := Search(d, t, f, false); (r.exact <==> f in d.entries) && (r.exact ==> First(d.entries, f, r.index))
  {
    var token := d.lookupToken(f.name);
    assert FirstExact(t, f) == -1;
    forall j | 0 <= j < STATIC_LENGTH && d.entries[j] == f
      ensures 0 <= token <= j <= MAX_STATIC_TOKEN
    {
    }
    if 0 <= token <= MAX_STATIC_TOKEN {
      ScanStaticFinds(d, f, token, token);
    }
  }

  /** Without an exact match: the first static entry with the name, else the newest dynamic one, else nothing. */
  lemma SearchName(d: Dictionary, t: Table, f: Field, nameOnly: bool)
    requires WellFormed(d) && !Search(d, t, f, nameOnly).exact
    ensures var i := Search(d, t, f, nameOnly).index;
            if Named(d.entries, f.name) then FirstWithName(d.entries, f.name, i)
            else if Named(t, f.name) then FirstWithName(t, f.name, i - STATIC_LENGTH)
            else i == -1
  {
    var token := d.lookupToken(f.name);
    if 0 <= token <= MAX_STATIC_TOKEN {
      ScanStaticFinds(d, f, token, token);
      assert d.entries[token].name == f.name && d.entries[token] in d.entries;
    } else {
      forall e <- d.entries
        ensures e.name != f.name
      {
      }
      var i := FirstName(t, f.name);
      assert i >= 0 ==> t[i] in t;
    }
  }
}
