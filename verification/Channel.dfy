/** `Channel::push` and `Channel::pop`, cut where control passes to another coroutine. */
module Channels {
  import opened Scheduling
  import opened ChannelRuns
  import opened Coroutines

  class Channel {
    const capacity: nat
    const sched: Scheduler
    var data: seq<Datum>
    var producers: seq<Coroutine>
    var consumers: seq<Coroutine>
    ghost var at: map<Id, Point> // where each coroutine inside a call has been left
    ghost var pushes: seq<Datum>
    ghost var pops: nat
    ghost var pushed: map<nat, bool>
    ghost var popped: map<nat, Option<Datum>>

    ghost function View(): World
      reads this, sched
    {
      World(sched.View(), at, data, Cids(producers), Cids(consumers), pushes, pops, pushed, popped)
    }

    /** Those that wait have not ended. */
    ghost predicate Queues()
      reads this, sched
    {
      && (forall i :: 0 <= i < |producers| ==> sched.Registered(producers[i]))
      && (forall i :: 0 <= i < |consumers| ==> sched.Registered(consumers[i]))
    }

    ghost predicate Valid()
      reads this, sched, sched.coroutines.Values
    {
      sched.Valid() && Queues() && Orderly(View(), capacity)
    }

    constructor (capacity: nat, sched: Scheduler)
      requires sched.Valid()
      ensures Valid() && this.capacity == capacity && this.sched == sched
      ensures View() == EMPTY.(t := sched.View())
    {
      this.capacity, this.sched := capacity, sched;
      data, producers, consumers, at, pushes, pops, pushed, popped := [], [], [], map[], [], 0, map[], map[];
      new;
      sched.ViewSound();
      hide Scheduler.Valid, Sound;
    }

    /** Where a call goes on there is a capacity. */
    lemma Capable()
      requires Valid() && (Now(View()) != None || WokenPush(View()) || WokenPop(View()) || |data| != capacity || data != [])
      ensures capacity > 0 && Inv(View(), capacity)
    {
      if capacity == 0 {
        NobodyWokenWhenStuck(View());
      }
      hide Now, WokenPush, WokenPop, Inv, Sound;
    }

    lemma MoreCids(s: seq<Coroutine>, c: Coroutine)
      ensures Cids(s + [c]) == Cids(s) + [c.cid]
    {
    }

    /** A peer that is notified is suspended. */
    lemma WaiterSuspended(c: Coroutine)
      requires Valid()
      requires (WokenPush(View()) && consumers != [] && c == consumers[0]) || (WokenPop(View()) && producers != [] && c == producers[0])
      ensures sched.Registered(c) && c !in sched.active
    {
      var w := View();
      Capable();
      assert c.cid in w.at && (w.at[c.cid].Pushing? || w.at[c.cid].Popping?) && c.cid != w.t.active[0];
      assert PlacedAt(w, c.cid, w.at[c.cid]);
      sched.Inactive(c);
    }

    lemma Current(s: Step)
      requires Valid() && Can(View(), s) && !s.Outside?
      ensures sched.current != null && sched.Registered(sched.current) && sched.current.cid == sched.View().active[0]
    {
    }

    /** What a call that goes on can rely on. */
    lemma PushReady(x: Datum, k: nat)
      requires Valid() && Now(View()) == Some(Pushing(k, x))
      ensures |data| < capacity && k !in pushed && View().t.active != [] && Inv(GoPush(View(), View().t.active[0], k, x, capacity), capacity)
      ensures consumers != [] ==> sched.Registered(consumers[0]) && consumers[0] !in sched.active
    {
      Capable();
      GoPushKeeps(View(), View().t.active[0], k, x, capacity);
      PushGoes(View(), k, x, capacity);
      if consumers != [] {
        WaiterSuspended(consumers[0]);
      }
      hide GoPush;
    }

    lemma PopReady(k: nat)
      requires Valid() && Now(View()) == Some(Popping(k))
      ensures data != [] && k !in popped && View().t.active != [] && Inv(GoPop(View(), View().t.active[0], k), capacity)
      ensures producers != [] ==> sched.Registered(producers[0]) && producers[0] !in sched.active
    {
      Capable();
      GoPopKeeps(View(), View().t.active[0], k, capacity);
      PopGoes(View(), k, capacity);
      if producers != [] {
        WaiterSuspended(producers[0]);
      }
      hide GoPop;
    }

    /** The calls that have returned are older ones. */
    lemma NewCall()
      requires Valid()
      ensures |pushes| !in pushed && pops !in popped
    {
    }

    // ---- push ----

    /** `producer_queue.push(co)` and `yield` */
    method WaitToPush(ghost x: Datum, ghost p: Point)
      requires sched.Valid() && Queues() && sched.current != null && sched.Registered(sched.current)
      modifies this`producers, this`at, this`pushes, sched
      ensures sched.Valid() && Queues()
      ensures var w := old(View()); var c := w.t.active[0];
              View() == w.(pushes := w.pushes + [x], producers := w.producers + [c], at := w.at[c := p], t := Apply(w.t, Yield))
    {
      var co := sched.current;
      MoreCids(producers, co);
      producers := producers + [co];
      at := at[co.cid := p];
      pushes := pushes + [x];
      sched.Yield();
    }

    /** The first consumer is resumed. */
    method NotifyConsumer(ghost c: Id, ghost p: Point)
      requires sched.Valid() && Queues() && consumers != [] && consumers[0] !in sched.active
      modifies this`consumers, this`at, sched, consumers
      ensures sched.Valid() && Queues()
      ensures var w := old(View());
              View() == w.(consumers := w.consumers[1..], at := w.at[c := p], t := Apply(w.t, Resume(w.consumers[0])))
    {
      var co := consumers[0];
      CidsTail(consumers);
      consumers := consumers[1..];
      at := at[c := p];
      sched.Resume(co);
    }

    /** The call is over. */
    method FinishPush(ghost c: Id, ghost k: nat, ghost ok: bool)
      requires sched.Valid() && Queues()
      modifies this`at, this`pushed
      ensures sched.Valid() && Queues() && pushed == old(pushed)[k := ok]
      ensures View() == ChannelRuns.EndPush(old(View()), c, k, ok)
    {
      hide Scheduler.Valid, Cids;
      at := at - {c};
      pushed := pushed[k := ok];
    }

    /** `push`, up to where control passes on or the call returns. */
    method Push(x: Datum) returns (r: Option<bool>)
      requires Valid() && Can(View(), Step.Push(x))
      modifies this, sched, consumers
      ensures Valid() && View() == Do(old(View()), Step.Push(x), capacity)
      ensures r == if |old(pushes)| in pushed then Some(pushed[|old(pushes)|]) else None
    {
      hide Orderly, Can, Do, GoPush, Scheduler.Valid, Now, Sound, Apply, Cids;
      ghost var w, k := View(), |pushes|;
      NewCall();
      Current(Step.Push(x));
      OrderlyStep(w, Step.Push(x), capacity);
      DoesPush(w, x, capacity);
      if |data| == capacity {
        WaitToPush(x, Pushing(k, x));
        r := None;
      } else {
        EnterPush(x);
        r := GoOnPush(x, k);
      }
    }

    /** A call of `push` that does not wait. */
    ghost method EnterPush(x: Datum)
      requires Valid() && Can(View(), Step.Push(x)) && |data| != capacity
      modifies this`pushes, this`at
      ensures var w := old(View()); View() == Entered(w, w.t.active[0], x) && Now(View()) == Some(Pushing(|w.pushes|, x))
      ensures Valid()
    {
      ghost var w := View();
      Capable();
      BeginPush(w, w.t.active[0], x, capacity);
      hide Inv, Stuck, Can, Now, Sound, Scheduler.Valid, Cids, Queues;
      at := at[w.t.active[0] := Pushing(|pushes|, x)];
      pushes := pushes + [x];
    }

    /** The rest of `push`, from the second test of the size to the notification. */
    method GoOnPush(x: Datum, ghost k: nat) returns (r: Option<bool>)
      requires Valid() && Now(View()) == Some(Pushing(k, x))
      modifies this, sched, consumers
      ensures Valid() && View() == GoPush(old(View()), old(View()).t.active[0], k, x, capacity)
      ensures r == if k in pushed then Some(pushed[k]) else None
    {
      PushReady(x, k);
      hide Orderly, Scheduler.Valid, Now, Apply, Cids, Sound, ChannelRuns.EndPush;
      ghost var w := View();
      ghost var c := w.t.active[0];
      if |data| == capacity {
        assert false; // so `push` never returns false
      }
      data := data + [x];
      assert View() == w.(data := w.data + [x]);
      if consumers != [] {
        NotifyConsumer(c, Notifying(k));
        return None;
      }
      FinishPush(c, k, true);
      r := Some(true);
    }

    /** The end of `push` once the notified peer has given control back. */
    method EndPush(ghost k: nat) returns (r: bool)
      requires Valid() && Now(View()) == Some(Notifying(k))
      modifies this`at, this`pushed
      ensures Valid() && View() == ChannelRuns.EndPush(old(View()), old(View()).t.active[0], k, true) && r == pushed[k]
    {
      Capable();
      EndKeeps(View(), View().t.active[0], Notifying(k), capacity);
      hide Orderly, Scheduler.Valid, Now, Sound, ChannelRuns.EndPush, Queues;
      FinishPush(View().t.active[0], k, true);
      r := true;
    }

    // ---- pop ----

    /** `consumer_queue.push(co)` and `yield` */
    method WaitToPop(ghost p: Point)
      requires sched.Valid() && Queues() && sched.current != null && sched.Registered(sched.current)
      modifies this`consumers, this`at, this`pops, sched
      ensures sched.Valid() && Queues()
      ensures var w := old(View()); var c := w.t.active[0];
              View() == w.(pops := w.pops + 1, consumers := w.consumers + [c], at := w.at[c := p], t := Apply(w.t, Yield))
    {
      var co := sched.current;
      MoreCids(consumers, co);
      consumers := consumers + [co];
      at := at[co.cid := p];
      pops := pops + 1;
      sched.Yield();
    }

    /** The first producer is resumed. */
    method NotifyProducer(ghost c: Id, ghost p: Point)
      requires sched.Valid() && Queues() && producers != [] && producers[0] !in sched.active
      modifies this`producers, this`at, sched, producers
      ensures sched.Valid() && Queues()
      ensures var w := old(View());
              View() == w.(producers := w.producers[1..], at := w.at[c := p], t := Apply(w.t, Resume(w.producers[0])))
    {
      var co := producers[0];
      CidsTail(producers);
      producers := producers[1..];
      at := at[c := p];
      sched.Resume(co);
    }

    method FinishPop(ghost c: Id, ghost k: nat, ghost r: Option<Datum>)
      requires sched.Valid() && Queues()
      modifies this`at, this`popped
      ensures sched.Valid() && Queues() && popped == old(popped)[k := r]
      ensures View() == ChannelRuns.EndPop(old(View()), c, k, r)
    {
      hide Scheduler.Valid, Cids;
      at := at - {c};
      popped := popped[k := r];
    }

    /** `pop`, up to where control passes on or the call returns. */
    method Pop() returns (r: Option<Option<Datum>>)
      requires Valid() && Can(View(), Step.Pop)
      modifies this, sched, producers
      ensures Valid() && View() == Do(old(View()), Step.Pop, capacity)
      ensures r == if old(pops) in popped then Some(popped[old(pops)]) else None
    {
      hide Orderly, Can, Do, GoPop, Scheduler.Valid, Now, Sound, Apply, Cids;
      ghost var w, k := View(), pops;
      NewCall();
      Current(Step.Pop);
      OrderlyStep(w, Step.Pop, capacity);
      DoesPop(w, capacity);
      if data == [] {
        WaitToPop(Popping(k));
        r := None;
      } else {
        EnterPop();
        r := GoOnPop(k);
      }
    }

    /** A call of `pop` that does not wait. */
    ghost method EnterPop()
      requires Valid() && Can(View(), Step.Pop) && data != []
      modifies this`pops, this`at
      ensures var w := old(View()); View() == EnteredPop(w, w.t.active[0]) && Now(View()) == Some(Popping(w.pops))
      ensures Valid()
    {
      ghost var w := View();
      Capable();
      BeginPop(w, w.t.active[0], capacity);
      hide Inv, Stuck, Can, Now, Sound, Scheduler.Valid, Cids, Queues;
      at := at[w.t.active[0] := Popping(pops)];
      pops := pops + 1;
    }

    /** The rest of `pop`, from the second test for data to the notification. */
    method GoOnPop(ghost k: nat) returns (r: Option<Option<Datum>>)
      requires Valid() && Now(View()) == Some(Popping(k))
      modifies this, sched, producers
      ensures Valid() && View() == GoPop(old(View()), old(View()).t.active[0], k)
      ensures r == if k in popped then Some(popped[k]) else None
    {
      PopReady(k);
      hide Orderly, Scheduler.Valid, Now, Apply, Cids, Sound, ChannelRuns.EndPop;
      ghost var w := View();
      ghost var c := w.t.active[0];
      if data == [] {
        assert false; // so `pop` never returns null for want of data
      }
      var x := data[0];
      data := data[1..];
      assert View() == w.(data := w.data[1..]);
      if producers != [] {
        NotifyProducer(c, Returning(k, x));
        return None;
      }
      FinishPop(c, k, Some(x));
      r := Some(Some(x));
    }

    /** The end of `pop` once the notified peer has given control back; `x` is its local variable. */
    method EndPop(ghost k: nat, x: Datum) returns (r: Datum)
      requires Valid() && Now(View()) == Some(Returning(k, x))
      modifies this`at, this`popped
      ensures Valid() && View() == ChannelRuns.EndPop(old(View()), old(View()).t.active[0], k, Some(x)) && popped[k] == Some(r)
    {
      Capable();
      EndKeeps(View(), View().t.active[0], Returning(k, x), capacity);
      hide Orderly, Scheduler.Valid, Now, Sound, ChannelRuns.EndPop, Queues;
      FinishPop(View().t.active[0], k, Some(x));
      r := x;
    }
  }
}
