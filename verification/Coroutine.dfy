/** `Coroutine`: the registry, the running coroutine and the chain of those that resumed each other. */
module Coroutines {
  import opened Scheduling

  class Coroutine {
    const cid: nat
    var origin: Coroutine?
    var saved: Coroutine? // `swap_ctx_`: the context that swapped this one in, null for the main program
    var ended: bool

    constructor (cid: nat)
      ensures this.cid == cid && !ended
    {
      this.cid, ended := cid, false;
      origin, saved := null, null;
    }
  }

  function Cids(s: seq<Coroutine>): (r: seq<Id>)
    ensures |r| == |s| && forall i :: 0 <= i < |s| ==> r[i] == s[i].cid
  {
    seq(|s|, i requires 0 <= i < |s| => s[i].cid)
  }

  /** The coroutine at a place of a chain; null ends it. */
  ghost function Link(s: seq<Coroutine>, i: nat): Coroutine?
  {
    if i < |s| then s[i] else null
  }

  lemma First(c: Coroutine, s: seq<Coroutine>)
    ensures Link([c] + s, 0) == c
  {
  }

  lemma LinkCons(c: Coroutine, s: seq<Coroutine>, i: nat)
    ensures Link([c] + s, i + 1) == Link(s, i)
  {
  }

  lemma LinkTail(s: seq<Coroutine>, i: nat)
    requires s != []
    ensures Link(s[1..], i) == Link(s, i + 1)
  {
  }

  lemma CidsCons(c: Coroutine, s: seq<Coroutine>)
    ensures Cids([c] + s) == [c.cid] + Cids(s)
  {
  }

  lemma CidsTail(s: seq<Coroutine>)
    requires s != []
    ensures Cids(s[1..]) == Cids(s)[1..] && Cids(s)[0] == s[0].cid
  {
  }

  /** The static members of `Coroutine`, and the processor. */
  class Scheduler {
    var current: Coroutine?
    var lastCid: nat
    var coroutines: map<nat, Coroutine>
    var context: Coroutine? // the context the processor is in, null for the main program
    ghost var active: seq<Coroutine> // the chain of origins, from `current` on

    ghost predicate Registered(c: Coroutine)
      reads this
    {
      c.cid in coroutines && coroutines[c.cid] == c
    }

    /** The origins from `current` on are the chain, and are the contexts to go back to. */
    ghost predicate Linked()
      reads this, coroutines.Values
    {
      && (forall i :: 0 <= i < |active| ==> Registered(active[i]))
      && (forall i, j :: 0 <= i < j < |active| ==> active[i] != active[j])
      && (forall i :: 0 <= i < |active| ==> active[i].origin == Link(active, i + 1) && active[i].saved == Link(active, i + 1))
      && current == Link(active, 0) && context == Link(active, 0)
    }

    /** The registry holds coroutines under their numbers. */
    ghost predicate Listed()
      reads this
    {
      forall id <- coroutines :: coroutines[id].cid == id && 0 < id <= lastCid
    }

    ghost predicate Valid()
      reads this, coroutines.Values
    {
      Linked() && Listed() && forall id <- coroutines :: !coroutines[id].ended
    }

    ghost function View(): Threads
      reads this
    {
      Threads(Cids(active), coroutines.Keys, lastCid)
    }

    constructor ()
      ensures Valid() && View() == START
    {
      current, lastCid, coroutines, context, active := null, 0, map[], null, [];
    }

    lemma ViewSound()
      requires Valid()
      ensures Sound(View())
    {
    }

    lemma Inactive(c: Coroutine)
      ensures c.cid !in View().active ==> c !in active
    {
      assert forall i :: 0 <= i < |active| ==> View().active[i] == active[i].cid;
    }

    /** `Context::swap_in` */
    method SwapIn(c: Coroutine)
      modifies c`saved, this`context
      ensures c.saved == old(context) && context == c
    {
      c.saved := context;
      context := c;
    }

    /** `Context::swap_out` */
    method SwapOut(c: Coroutine)
      modifies this`context
      ensures context == c.saved
    {
      context := c.saved;
    }

    /** The common part of `run` and `_resume`: the caller becomes the origin. */
    method Enter(c: Coroutine)
      requires Linked() && Registered(c)
      modifies this`current, this`context, this`active, c`origin, c`saved
      ensures current == context == c && c.origin == c.saved == old(current) && active == [c] + old(active)
      ensures c !in old(active) ==> Linked()
      ensures View() == old(View()).(active := [c.cid] + old(View()).active)
    {
      CidsCons(c, active);
      hide Cids, Link;
      ghost var was := active;
      c.origin := current;
      current := c;
      SwapIn(c);
      active := [c] + active;
      assert Link(active, 0) == c by {
        First(c, was);
      }
      LinkCons(c, was, 0);
      if c !in was {
        forall i | 0 < i < |active|
          ensures active[i] == was[i - 1] && active[i].origin == active[i].saved == Link(active, i + 1)
        {
          LinkCons(c, was, i);
        }
      }
    }

    /** Back to the context the coroutine was resumed from. */
    method Leave()
      requires Linked() && current != null
      modifies this`current, this`context, this`active
      ensures Linked() && active == old(active)[1..] && current == old(current.origin)
      ensures old(current) == old(active)[0] && old(current) !in active
    {
      hide Link;
      Begins();
      var c := current;
      LinkTail(active, 0);
      ghost var was := active;
      current := c.origin;
      SwapOut(c);
      active := active[1..];
      forall i | 0 <= i < |active|
        ensures active[i] == was[i + 1] && Link(active, i + 1) == Link(was, i + 2)
      {
        LinkTail(was, i + 1);
      }
    }

    /** Following the origins from `current` gives these coroutines and then null. */
    ghost predicate Chain(s: seq<Coroutine>)
      reads this, s
    {
      && current == Link(s, 0)
      && forall i :: 0 <= i < |s| ==> s[i].origin == Link(s, i + 1)
    }

    /** Origins that stay among some coroutines never end. */
    lemma NoChain(among: set<Coroutine>, s: seq<Coroutine>)
      requires current != null && current in among && forall c <- among :: c.origin != null && c.origin in among
      ensures !Chain(s)
    {
      if Chain(s) {
        assert |s| > 0;
        ChainAmong(among, s, |s| - 1);
      }
    }

    lemma {:induction false} ChainAmong(among: set<Coroutine>, s: seq<Coroutine>, n: nat)
      requires current != null && current in among && forall c <- among :: c.origin != null && c.origin in among
      requires Chain(s) && n < |s|
      ensures s[n] in among
    {
      if n > 0 {
        ChainAmong(among, s, n - 1);
      }
    }

    /** The origins run in a circle through the current coroutine. */
    lemma Circle(was: seq<Coroutine>, p: nat)
      requires p < |was| && current == was[p] && was[p].origin == was[0]
      requires forall i :: 0 <= i < p ==> was[i].origin == was[i + 1]
      ensures forall s :: !Chain(s)
    {
      var among := set i | 0 <= i <= p :: was[i];
      forall c <- among
        ensures c.origin != null && c.origin in among
      {
        var i :| 0 <= i <= p && was[i] == c;
        assert i < p ==> was[i + 1] in among;
        assert was[0] in among;
      }
      assert was[p] in among;
      forall s
        ensures !Chain(s)
      {
        NoChain(among, s);
      }
    }

    /** The constructor of `Coroutine`. */
    method Register() returns (c: Coroutine)
      requires Valid()
      modifies this`lastCid, this`coroutines
      ensures fresh(c) && Valid() && Registered(c) && c !in active && c.cid == lastCid == old(lastCid) + 1
      ensures coroutines == old(coroutines)[c.cid := c]
      ensures View() == old(View()).(live := old(View()).live + {c.cid}, last := c.cid)
    {
      hide Cids;
      lastCid := lastCid + 1;
      c := new Coroutine(lastCid);
      coroutines := coroutines[lastCid := c];
      assert coroutines.Keys == old(coroutines.Keys) + {lastCid};
    }

    /** `Coroutine::create`, up to the first instruction of the new coroutine. */
    method Create() returns (c: Coroutine)
      requires Valid()
      modifies this
      ensures fresh(c) && Valid() && current == c && active == [c] + old(active)
      ensures coroutines == old(coroutines)[c.cid := c]
      ensures View() == Apply(old(View()), Switch.Create)
    {
      hide Cids, Linked;
      c := Register();
      Enter(c);
    }

    /**
     * `Coroutine::resume`, up to the place where the coroutine goes on. If that was active, the
     * origins no longer end.
     */
    method Resume(c: Coroutine)
      requires Valid() && Registered(c) && c != current
      modifies this`current, this`context, this`active, c`origin, c`saved
      ensures current == context == c && c.origin == c.saved == old(current) && active == [c] + old(active)
      ensures c !in old(active) ==> Valid() && Chain(active) && View() == Apply(old(View()), Switch.Resume(c.cid))
      ensures c in old(active) ==> forall s :: !Chain(s)
    {
      ghost var was := active;
      Begins();
      Enter(c);
      if c in was {
        ghost var p :| 0 <= p < |was| && was[p] == c;
        Circle(was, p);
      } else {
        IsChain();
      }
    }

    lemma IsChain()
      requires Linked()
      ensures Chain(active)
    {
    }

    lemma Begins()
      requires Linked()
      ensures current == Link(active, 0) && (current != null ==> active != [] && current == active[0])
      ensures forall i :: 0 <= i < |active| - 1 ==> active[i].origin == active[i + 1]
    {
    }

    /** `_yield`: control is back where the coroutine was resumed. */
    method Yield()
      requires Valid() && current != null
      modifies this`current, this`context, this`active
      ensures Valid() && active == old(active)[1..] && current == old(current.origin)
      ensures View() == Apply(old(View()), Switch.Yield)
    {
      CidsTail(active);
      hide Cids, Linked;
      Leave();
    }

    /** The function of the coroutine returns; whoever resumed it unregisters it. */
    method End()
      requires Valid() && current != null
      modifies this, current`ended
      ensures Valid() && active == old(active)[1..] && current == old(current.origin)
      ensures coroutines == old(coroutines) - {old(current).cid}
      ensures View() == Apply(old(View()), Switch.End)
    {
      var c := current;
      c.ended := true;
      CidsTail(active);
      hide Cids, Linked;
      Leave();
      Unregister(c);
    }

    method Unregister(c: Coroutine)
      requires Linked() && Listed() && c !in active && Registered(c)
      requires forall id <- coroutines :: coroutines[id] != c ==> !coroutines[id].ended
      modifies this`coroutines
      ensures Valid() && coroutines == old(coroutines) - {c.cid}
      ensures View() == old(View()).(live := old(View()).live - {c.cid})
    {
      hide Cids;
      coroutines := coroutines - {c.cid};
    }
  }
}
