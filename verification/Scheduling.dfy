/** Coroutines that resume each other: which run, which exist. */
module Scheduling {
  type Id = nat

  datatype Option<T> = None | Some(value: T)

  /** What changes the running coroutine. */
  datatype Switch = Create | Resume(id: Id) | Yield | End

  /** The coroutines that have resumed each other, the running one first; those not ended; the last number given. */
  datatype Threads = Threads(active: seq<Id>, live: set<Id>, last: nat)

  const START := Threads([], {}, 0)

  /** Only suspended coroutines are resumed, and only a coroutine yields or ends. */
  predicate Legal(t: Threads, s: Switch)
  {
    match s
    case Create => true
    case Resume(id) => id in t.live && id !in t.active
    case Yield => t.active != []
    case End => t.active != []
  }

  function Apply(t: Threads, s: Switch): Threads
  {
    match s
    case Create => Threads([t.last + 1] + t.active, t.live + {t.last + 1}, t.last + 1)
    case Resume(id) => t.(active := [id] + t.active)
    case Yield => if t.active == [] then t else t.(active := t.active[1..])
    case End => if t.active == [] then t else t.(active := t.active[1..], live := t.live - {t.active[0]})
  }

  /** Who runs; nobody but the main program if there is none. */
  function Running(t: Threads): Option<Id>
  {
    if t.active == [] then None else Some(t.active[0])
  }

  // ---- Runs ----

  function After(run: seq<Switch>): Threads
  {
    if run == [] then START else Apply(After(run[..|run| - 1]), run[|run| - 1])
  }

  predicate LegalRun(run: seq<Switch>)
  {
    run == [] || (LegalRun(run[..|run| - 1]) && Legal(After(run[..|run| - 1]), run[|run| - 1]))
  }

  /** Whoever created or resumed a coroutine last. */
  function LastResumer(run: seq<Switch>, id: Id): Option<Id>
  {
    if run == [] then None
    else
      var t, s := After(run[..|run| - 1]), run[|run| - 1];
      if s == Resume(id) || (s == Create && id == t.last + 1) then Running(t) else LastResumer(run[..|run| - 1], id)
  }

  /** The coroutines that have ended. */
  function Ended(run: seq<Switch>): set<Id>
  {
    if run == [] then {}
    else
      var t, s := After(run[..|run| - 1]), run[|run| - 1];
      Ended(run[..|run| - 1]) + if s == End && t.active != [] then {t.active[0]} else {}
  }

  function Created(run: seq<Switch>): nat
  {
    if run == [] then 0 else Created(run[..|run| - 1]) + if run[|run| - 1] == Create then 1 else 0
  }

  /** The active coroutines are distinct and not ended. */
  ghost predicate Sound(t: Threads)
  {
    && (forall i, j :: 0 <= i < j < |t.active| ==> t.active[i] != t.active[j])
    && (forall id <- t.active :: id in t.live)
    && (forall id <- t.live :: 0 < id <= t.last)
  }

  lemma SoundStep(t: Threads, s: Switch)
    requires Sound(t) && Legal(t, s)
    ensures Sound(Apply(t, s))
  {
  }

  lemma {:induction false} AlwaysSound(run: seq<Switch>)
    requires LegalRun(run)
    ensures Sound(After(run))
  {
    if run != [] {
      AlwaysSound(run[..|run| - 1]);
      SoundStep(After(run[..|run| - 1]), run[|run| - 1]);
    }
  }

  /** Exactly those created and not ended exist; none is created twice. */
  lemma {:induction false} LiveAreNotEnded(run: seq<Switch>)
    requires LegalRun(run)
    ensures After(run).last == Created(run)
    ensures forall id :: id in After(run).live <==> 0 < id <= Created(run) && id !in Ended(run)
    ensures forall id <- Ended(run) :: 0 < id <= Created(run)
  {
    if run != [] {
      LiveAreNotEnded(run[..|run| - 1]);
      AlwaysSound(run[..|run| - 1]);
    }
  }

  /** Who resumed the coroutine at a place of the list of active ones. */
  function Behind(t: Threads, i: nat): Option<Id>
  {
    if i + 1 < |t.active| then Some(t.active[i + 1]) else None
  }

  ghost predicate Linked(run: seq<Switch>, t: Threads)
  {
    forall i :: 0 <= i < |t.active| ==> LastResumer(run, t.active[i]) == Behind(t, i)
  }

  /** A step that resumes nobody, or another. */
  lemma SameResumer(run: seq<Switch>, s: Switch, id: Id)
    requires s != Resume(id) && (s.Create? ==> id != After(run).last + 1)
    ensures LastResumer(run + [s], id) == LastResumer(run, id)
  {
    assert (run + [s])[..|run|] == run;
  }

  lemma NewResumer(run: seq<Switch>, s: Switch, id: Id)
    requires s == Resume(id) || (s.Create? && id == After(run).last + 1)
    ensures LastResumer(run + [s], id) == Running(After(run))
  {
    assert (run + [s])[..|run|] == run;
  }

  lemma LinkedStep(run: seq<Switch>, s: Switch)
    requires Sound(After(run)) && Legal(After(run), s) && Linked(run, After(run))
    ensures Linked(run + [s], Apply(After(run), s))
  {
    hide After, LastResumer;
    var t := After(run);
    var t' := Apply(t, s);
    var d := if s.Create? || s.Resume? then -1 else 1;
    if d == -1 {
      NewResumer(run, s, t'.active[0]);
    }
    forall i | 0 <= i < |t'.active| && 0 <= i + d
      ensures LastResumer(run + [s], t'.active[i]) == Behind(t', i)
    {
      assert t'.active[i] == t.active[i + d] && t.active[i + d] in t.live;
      SameResumer(run, s, t'.active[i]);
    }
  }

  /** Each active coroutine was last resumed by the next one. */
  lemma {:induction false} ResumedByNext(run: seq<Switch>)
    requires LegalRun(run)
    ensures Linked(run, After(run))
  {
    if run != [] {
      var run', s := run[..|run| - 1], run[|run| - 1];
      assert run == run' + [s];
      ResumedByNext(run');
      AlwaysSound(run');
      LinkedStep(run', s);
    }
  }

  /** Yielding or ending returns control to whoever resumed last. */
  lemma ReturnsToResumer(run: seq<Switch>, s: Switch)
    requires LegalRun(run + [s]) && (s.Yield? || s.End?)
    ensures After(run).active != []
    ensures Running(After(run + [s])) == LastResumer(run, After(run).active[0])
  {
    assert (run + [s])[..|run|] == run;
    ResumedByNext(run);
  }

  // ---- The chain of origins ----

  /** What the source keeps: `current`, and the `origin` of each coroutine that has not ended. */
  datatype Links = Links(current: Option<Id>, origin: map<Id, Option<Id>>, last: nat)

  /** The assignments of `run`, `_yield`, `_resume` and of the end of a coroutine. */
  function Relink(l: Links, s: Switch): Links
  {
    match s
    case Create => Links(Some(l.last + 1), l.origin[l.last + 1 := l.current], l.last + 1)
    case Resume(id) => l.(current := Some(id), origin := l.origin[id := l.current])
    case Yield => l.(current := OriginOf(l))
    case End => l.(current := OriginOf(l), origin := if l.current.Some? then l.origin - {l.current.value} else l.origin)
  }

  function OriginOf(l: Links): Option<Id>
  {
    if l.current.Some? && l.current.value in l.origin then l.origin[l.current.value] else None
  }

  function LinksAfter(run: seq<Switch>): Links
  {
    if run == [] then Links(None, map[], 0) else Relink(LinksAfter(run[..|run| - 1]), run[|run| - 1])
  }

  /** The element at a place of a chain; null after its end. */
  function At(chain: seq<Id>, i: nat): Option<Id>
  {
    if i < |chain| then Some(chain[i]) else None
  }

  /** Following the origins from `current` gives these coroutines and then null. */
  ghost predicate Follows(l: Links, chain: seq<Id>)
  {
    && l.current == At(chain, 0)
    && forall i :: 0 <= i < |chain| ==> chain[i] in l.origin && l.origin[chain[i]] == At(chain, i + 1)
  }

  lemma FollowsStep(t: Threads, l: Links, s: Switch)
    requires Sound(t) && Legal(t, s) && Follows(l, t.active) && l.last == t.last && l.origin.Keys == t.live
    ensures Follows(Relink(l, s), Apply(t, s).active)
    ensures Relink(l, s).last == Apply(t, s).last && Relink(l, s).origin.Keys == Apply(t, s).live
  {
    var t', l' := Apply(t, s), Relink(l, s);
    var d := if s.Create? || s.Resume? then -1 else 1;
    forall i | 0 <= i < |t'.active|
      ensures t'.active[i] in l'.origin && l'.origin[t'.active[i]] == At(t'.active, i + 1)
    {
      if 0 <= i + d {
        assert t'.active[i] == t.active[i + d];
      }
    }
  }

  /** In every run that resumes only suspended coroutines, the origins lead through the active ones to null. */
  lemma {:induction false} OriginsEnd(run: seq<Switch>)
    requires LegalRun(run)
    ensures Follows(LinksAfter(run), After(run).active)
    ensures LinksAfter(run).last == After(run).last && LinksAfter(run).origin.Keys == After(run).live
  {
    if run != [] {
      OriginsEnd(run[..|run| - 1]);
      AlwaysSound(run[..|run| - 1]);
      FollowsStep(After(run[..|run| - 1]), LinksAfter(run[..|run| - 1]), run[|run| - 1]);
    }
  }

  /** Origins that stay among some coroutines never end. */
  lemma NeverEnds(l: Links, among: set<Id>, chain: seq<Id>)
    requires l.current.Some? && l.current.value in among
    requires forall id <- among :: id in l.origin && l.origin[id].Some? && l.origin[id].value in among
    ensures !Follows(l, chain)
  {
    if Follows(l, chain) {
      AllAmong(l, among, chain, |chain| - 1);
    }
  }

  lemma {:induction false} AllAmong(l: Links, among: set<Id>, chain: seq<Id>, n: nat)
    requires l.current.Some? && l.current.value in among && Follows(l, chain) && n < |chain|
    requires forall id <- among :: id in l.origin && l.origin[id].Some? && l.origin[id].value in among
    ensures chain[n] in among
  {
    if n > 0 {
      AllAmong(l, among, chain, n - 1);
      assert l.origin[chain[n - 1]] == At(chain, n);
    }
  }

  /** Resuming a coroutine on the chain overwrites its origin: the chain runs in a circle. */
  lemma Circle(l: Links, chain: seq<Id>, id: Id, p: nat, other: seq<Id>)
    requires Follows(l, chain) && p < |chain| && chain[p] == id && forall i :: 0 <= i < p ==> chain[i] != id
    ensures !Follows(Relink(l, Resume(id)), other)
  {
    var among := set i | 0 <= i <= p :: chain[i];
    var l' := Relink(l, Resume(id));
    forall c <- among
      ensures c in l'.origin && l'.origin[c].Some? && l'.origin[c].value in among
    {
      var i :| 0 <= i <= p && chain[i] == c;
      assert i < p ==> l'.origin[c] == Some(chain[i + 1]) && chain[i + 1] in among;
      assert chain[0] in among;
    }
    assert chain[p] in among;
    NeverEnds(l', among, other);
  }

  lemma {:induction false} FirstPlace(chain: seq<Id>, id: Id) returns (p: nat)
    requires id in chain
    ensures p < |chain| && chain[p] == id && forall i :: 0 <= i < p ==> chain[i] != id
    decreases |chain|
  {
    if chain[0] == id {
      p := 0;
    } else {
      p := FirstPlace(chain[1..], id);
      assert forall i :: 0 <= i < p ==> chain[i + 1] == chain[1..][i];
      p := p + 1;
    }
  }

  /** Following the origins still ends in null after a resume if and only if the coroutine was not on the chain. */
  lemma EndsExactly(l: Links, chain: seq<Id>, id: Id)
    requires Follows(l, chain)
    ensures (exists c :: Follows(Relink(l, Resume(id)), c)) <==> id !in chain
  {
    if id in chain {
      var p := FirstPlace(chain, id);
      forall c
        ensures !Follows(Relink(l, Resume(id)), c)
      {
        Circle(l, chain, id, p, c);
      }
    } else {
      var c, l' := [id] + chain, Relink(l, Resume(id));
      assert forall i :: 0 <= i < |chain| ==> c[i + 1] == chain[i];
      forall i | 0 <= i < |c|
        ensures c[i] in l'.origin && l'.origin[c[i]] == At(c, i + 1)
      {
        if i > 0 {
          assert c[i] == chain[i - 1];
        }
      }
      assert Follows(l', c);
    }
  }

  /** A coroutine that resumes its creator, which the source does not refuse, makes such a circle. */
  lemma ResumedCreator(chain: seq<Id>)
    ensures !Follows(LinksAfter([Create, Create, Resume(1)]), chain)
  {
    var run := [Create, Create];
    assert run + [Resume(1)] == [Create, Create, Resume(1)] && (run + [Resume(1)])[..2] == run;
    assert run[..1] == [Create] && [Create][..0] == [];
    var l := LinksAfter(run);
    assert LinksAfter([Create]) == Links(Some(1), map[1 := None], 1);
    assert l == Links(Some(2), map[1 := None, 2 := Some(1)], 2);
    assert Follows(l, [2, 1]);
    Circle(l, [2, 1], 1, 1, chain);
  }
}
