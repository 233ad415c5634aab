/** Coroutines that push to and pop from one channel, switch by switch. */
module ChannelRuns {
  import opened Scheduling

  type Datum = int // a `void *`

  /** Where a coroutine is inside `push` or `pop`: in `yield`, or in the `resume` that notifies a peer. */
  datatype Point = Pushing(k: nat, x: Datum) | Popping(k: nat) | Notifying(k: nat) | Returning(k: nat, x: Datum)

  /**
   * The channel, where each coroutine is that is inside a call, and what has happened: the data of all
   * calls of `push`, the number of calls of `pop`, and what the calls that have returned gave.
   */
  datatype World = World(
    t: Threads, at: map<Id, Point>, data: seq<Datum>, producers: seq<Id>, consumers: seq<Id>,
    pushes: seq<Datum>, pops: nat, pushed: map<nat, bool>, popped: map<nat, Option<Datum>>)

  const EMPTY := World(START, map[], [], [], [], [], 0, map[], map[])

  /** A switch outside the channel, a call, or a call that goes on. */
  datatype Step = Outside(s: Switch) | Push(x: Datum) | Pop | Continue

  /** Coroutines waiting in the channel are resumed by the channel only. */
  predicate Can(w: World, s: Step)
  {
    if s.Outside? then
      && Legal(w.t, s.s)
      && (w.t.active != [] ==> w.t.active[0] !in w.at)
      && (s.s.Resume? ==> s.s.id !in w.at)
    else w.t.active != [] && (s.Continue? <==> w.t.active[0] in w.at)
  }

  // ---- push ----

  function CallPush(w: World, c: Id, x: Datum, capacity: nat): World
  {
    var k, w1 := |w.pushes|, w.(pushes := w.pushes + [x]);
    if |w.data| == capacity then
      w1.(producers := w.producers + [c], at := w.at[c := Pushing(k, x)], t := Apply(w.t, Yield))
    else GoPush(w1, c, k, x, capacity)
  }

  /** From the second test of the size on. */
  function GoPush(w: World, c: Id, k: nat, x: Datum, capacity: nat): World
  {
    if |w.data| == capacity then EndPush(w, c, k, false)
    else
      var w1 := w.(data := w.data + [x]);
      if w.consumers == [] then EndPush(w1, c, k, true)
      else w1.(consumers := w.consumers[1..], at := w.at[c := Notifying(k)], t := Apply(w.t, Resume(w.consumers[0])))
  }

  function EndPush(w: World, c: Id, k: nat, ok: bool): World
  {
    w.(at := w.at - {c}, pushed := w.pushed[k := ok])
  }

  // ---- pop ----

  function CallPop(w: World, c: Id): World
  {
    var k, w1 := w.pops, w.(pops := w.pops + 1);
    if w.data == [] then
      w1.(consumers := w.consumers + [c], at := w.at[c := Popping(k)], t := Apply(w.t, Yield))
    else GoPop(w1, c, k)
  }

  function GoPop(w: World, c: Id, k: nat): World
  {
    if w.data == [] then EndPop(w, c, k, None)
    else
      var x, w1 := w.data[0], w.(data := w.data[1..]);
      if w.producers == [] then EndPop(w1, c, k, Some(x))
      else w1.(producers := w.producers[1..], at := w.at[c := Returning(k, x)], t := Apply(w.t, Resume(w.producers[0])))
  }

  function EndPop(w: World, c: Id, k: nat, r: Option<Datum>): World
  {
    w.(at := w.at - {c}, popped := w.popped[k := r])
  }

  function GoOn(w: World, c: Id, p: Point, capacity: nat): World
  {
    match p
    case Pushing(k, x) => GoPush(w, c, k, x, capacity)
    case Popping(k) => GoPop(w, c, k)
    case Notifying(k) => EndPush(w, c, k, true)
    case Returning(k, x) => EndPop(w, c, k, Some(x))
  }

  function Do(w: World, s: Step, capacity: nat): World
    requires Can(w, s)
  {
    match s
    case Outside(s) => w.(t := Apply(w.t, s))
    case Push(x) => CallPush(w, w.t.active[0], x, capacity)
    case Pop => CallPop(w, w.t.active[0])
    case Continue => GoOn(w, w.t.active[0], w.at[w.t.active[0]], capacity)
  }

  // ---- Invariant ----

  /** What the running coroutine has to do first, if it was just woken or comes back from a notification. */
  function Now(w: World): Option<Point>
  {
    if w.t.active != [] && w.t.active[0] in w.at then Some(w.at[w.t.active[0]]) else None
  }

  predicate WokenPush(w: World)
  {
    Now(w).Some? && Now(w).value.Pushing?
  }

  predicate WokenPop(w: World)
  {
    Now(w).Some? && Now(w).value.Popping?
  }

  /** How many data have been put into the queue, and taken from it. */
  function Sent(w: World): int
  {
    |w.pushes| - |w.producers| - if WokenPush(w) then 1 else 0
  }

  function Taken(w: World): int
  {
    w.pops - |w.consumers| - if WokenPop(w) then 1 else 0
  }

  /** The queue holds what was pushed and not popped, in the order of the calls. */
  ghost predicate Ordered(w: World)
  {
    0 <= Taken(w) <= Sent(w) <= |w.pushes| && w.data == w.pushes[Taken(w)..Sent(w)]
  }

  /** Waiting calls are queued in their order, the one just woken ahead of them. */
  ghost predicate Queued(w: World)
  {
    var e, g := |w.pushes| - |w.producers|, w.pops - |w.consumers|;
    && 0 <= e && 0 <= g
    && (forall j :: 0 <= j < |w.producers| ==> w.producers[j] in w.at && w.at[w.producers[j]] == Pushing(e + j, w.pushes[e + j]))
    && (forall j :: 0 <= j < |w.consumers| ==> w.consumers[j] in w.at && w.at[w.consumers[j]] == Popping(g + j))
    && (WokenPush(w) ==> 0 < e && Now(w).value == Pushing(e - 1, w.pushes[e - 1]))
    && (WokenPop(w) ==> 0 < g && Now(w).value == Popping(g - 1))
  }

  /** Those that wait are suspended, those that notify are active and know what they will return. */
  ghost predicate Placed(w: World)
  {
    forall c <- w.at :: c in w.t.live && PlacedAt(w, c, w.at[c])
  }

  ghost predicate PlacedAt(w: World, c: Id, p: Point)
  {
    if p.Pushing? || p.Popping? then c in w.t.active ==> c == w.t.active[0]
    else
      && c in w.t.active
      && (if p.Notifying? then p.k < Sent(w) else p.k < Taken(w) && p.k < |w.pushes| && p.x == w.pushes[p.k])
  }

  /**
   * The queue is full while producers wait and empty while consumers do, but for the moment after one
   * was woken; then it has room for its datum, or one for it to take.
   */
  ghost predicate Sized(w: World, capacity: nat)
  {
    var coming, going := if WokenPush(w) then 1 else 0, if WokenPop(w) then 1 else 0;
    && going <= |w.data| <= capacity - coming
    && (w.producers != [] ==> |w.data| == capacity - coming)
    && (w.consumers != [] ==> |w.data| == going)
    && (w.producers == [] || w.consumers == [])
  }

  /** The calls that have returned: every push succeeded, and pop `k` gave the datum of push `k`. */
  ghost predicate Matched(w: World)
  {
    && (forall k <- w.pushed :: k < Sent(w) && w.pushed[k])
    && (forall k <- w.popped :: k < Taken(w) && k < |w.pushes| && w.popped[k] == Some(w.pushes[k]))
  }

  ghost predicate Inv(w: World, capacity: nat)
  {
    Sound(w.t) && Ordered(w) && Queued(w) && Placed(w) && Sized(w, capacity) && Matched(w)
  }

  // ---- Every step keeps it ----

  /** Whoever runs after a switch outside the channel is not waiting in it. */
  lemma NobodyWoken(w: World, s: Switch)
    requires Sound(w.t) && Placed(w) && Can(w, Outside(s))
    ensures var w' := w.(t := Apply(w.t, s)); !WokenPush(w') && !WokenPop(w') && !WokenPush(w) && !WokenPop(w)
  {
    var a := w.t.active;
    var w' := w.(t := Apply(w.t, s));
    if |a| > 1 {
      assert a[1] in w.at ==> PlacedAt(w, a[1], w.at[a[1]]);
    }
    match s {
      case Create => assert w'.t.active[0] !in w.t.live;
      case Resume(id) => assert w'.t.active[0] == id;
      case _ => assert w'.t.active == a[1..];
    }
  }

  lemma OutsideKeeps(w: World, s: Switch, capacity: nat)
    requires Inv(w, capacity) && Can(w, Outside(s))
    ensures Inv(w.(t := Apply(w.t, s)), capacity)
  {
    SoundStep(w.t, s);
    NobodyWoken(w, s);
    OutsidePlaced(w, s);
    hide Placed, Apply, Sound, WokenPush, WokenPop;
  }

  lemma OutsidePlaced(w: World, s: Switch)
    requires Sound(w.t) && Placed(w) && Can(w, Outside(s))
    ensures Placed(w.(t := Apply(w.t, s)))
  {
    NobodyWoken(w, s);
    var w' := w.(t := Apply(w.t, s));
    forall c <- w'.at
      ensures c in w'.t.live && PlacedAt(w', c, w'.at[c])
    {
      assert PlacedAt(w, c, w.at[c]);
      hide WokenPush, WokenPop;
    }
  }

  /** A coroutine that begins to wait gives control to one that does not. */
  lemma NobodyWokenByWaiting(w: World, p: Point)
    requires Sound(w.t) && Placed(w) && w.t.active != [] && w.t.active[0] !in w.at
    ensures var w' := w.(t := Apply(w.t, Yield), at := w.at[w.t.active[0] := p]);
            !WokenPush(w') && !WokenPop(w') && !WokenPush(w) && !WokenPop(w)
  {
    var a := w.t.active;
    if |a| > 1 {
      assert a[1] in w.at ==> PlacedAt(w, a[1], w.at[a[1]]);
    }
  }

  lemma WaitPushKeeps(w: World, c: Id, x: Datum, capacity: nat)
    requires Inv(w, capacity) && Can(w, Push(x)) && c == w.t.active[0] && |w.data| == capacity > 0
    ensures Inv(CallPush(w, c, x, capacity), capacity)
  {
    var w' := CallPush(w, c, x, capacity);
    SoundStep(w.t, Yield);
    NobodyWokenByWaiting(w, Pushing(|w.pushes|, x));
    assert !WokenPush(w') && !WokenPop(w');
    hide WokenPush, WokenPop, Now, Sound;
    assert Sent(w') == Sent(w) && Taken(w') == Taken(w);
  }

  lemma WaitPopKeeps(w: World, c: Id, capacity: nat)
    requires Inv(w, capacity) && Can(w, Pop) && c == w.t.active[0] && w.data == [] && capacity > 0
    ensures Inv(CallPop(w, c), capacity)
  {
    var w' := CallPop(w, c);
    SoundStep(w.t, Yield);
    NobodyWokenByWaiting(w, Popping(w.pops));
    assert !WokenPush(w') && !WokenPop(w');
    hide WokenPush, WokenPop, Now, Sound;
    assert Sent(w') == Sent(w) && Taken(w') == Taken(w);
  }

  /** The state in which a call that does not wait goes on like one that was woken. */
  function Entered(w: World, c: Id, x: Datum): World
  {
    w.(pushes := w.pushes + [x], at := w.at[c := Pushing(|w.pushes|, x)])
  }

  function EnteredPop(w: World, c: Id): World
  {
    w.(pops := w.pops + 1, at := w.at[c := Popping(w.pops)])
  }

  lemma BeginPush(w: World, c: Id, x: Datum, capacity: nat)
    requires Inv(w, capacity) && Can(w, Push(x)) && c == w.t.active[0] && |w.data| != capacity
    ensures Inv(Entered(w, c, x), capacity) && Now(Entered(w, c, x)) == Some(Pushing(|w.pushes|, x))
  {
    var w1 := Entered(w, c, x);
    assert Now(w) == None && Now(w1) == Some(Pushing(|w.pushes|, x));
    hide Now, Sound;
    assert Sent(w1) == Sent(w) && Taken(w1) == Taken(w);
  }

  lemma BeginPop(w: World, c: Id, capacity: nat)
    requires Inv(w, capacity) && Can(w, Pop) && c == w.t.active[0] && w.data != []
    ensures Inv(EnteredPop(w, c), capacity) && Now(EnteredPop(w, c)) == Some(Popping(w.pops))
  {
    var w1 := EnteredPop(w, c);
    assert Now(w) == None && Now(w1) == Some(Popping(w.pops));
    hide Now, Sound;
    assert Sent(w1) == Sent(w) && Taken(w1) == Taken(w);
  }

  lemma GoesOn(w: World, c: Id, x: Datum, capacity: nat)
    requires |w.data| != capacity
    ensures CallPush(w, c, x, capacity) == GoPush(Entered(w, c, x), c, |w.pushes|, x, capacity)
  {
    assert w.at[c := Pushing(|w.pushes|, x)] - {c} == w.at - {c};
  }

  lemma GoesOnPop(w: World, c: Id)
    requires w.data != []
    ensures CallPop(w, c) == GoPop(EnteredPop(w, c), c, w.pops)
  {
    assert w.at[c := Popping(w.pops)] - {c} == w.at - {c};
  }

  lemma DoesPush(w: World, x: Datum, capacity: nat)
    requires Can(w, Push(x))
    ensures var c, k := w.t.active[0], |w.pushes|;
            Do(w, Push(x), capacity) ==
            if |w.data| == capacity
            then w.(pushes := w.pushes + [x], producers := w.producers + [c], at := w.at[c := Pushing(k, x)], t := Apply(w.t, Yield))
            else GoPush(Entered(w, c, x), c, k, x, capacity)
  {
    if |w.data| != capacity {
      GoesOn(w, w.t.active[0], x, capacity);
    }
    hide GoPush;
  }

  lemma DoesPop(w: World, capacity: nat)
    requires Can(w, Pop)
    ensures var c := w.t.active[0];
            Do(w, Pop, capacity) ==
            if w.data == []
            then w.(pops := w.pops + 1, consumers := w.consumers + [c], at := w.at[c := Popping(w.pops)], t := Apply(w.t, Yield))
            else GoPop(EnteredPop(w, c), c, w.pops)
  {
    if w.data != [] {
      GoesOnPop(w, w.t.active[0]);
    }
    hide GoPop;
  }

  /** The push that goes on is the next to be sent, and there is room for it. */
  lemma PushGoes(w: World, k: nat, x: Datum, capacity: nat)
    requires Inv(w, capacity) && Now(w) == Some(Pushing(k, x))
    ensures |w.data| < capacity && k == Sent(w) && k < |w.pushes| && w.pushes[k] == x
  {
  }

  /** The pop that goes on is the next to take, and there is a datum for it. */
  lemma PopGoes(w: World, k: nat, capacity: nat)
    requires Inv(w, capacity) && Now(w) == Some(Popping(k))
    ensures w.data != [] && k == Taken(w) && k < |w.pushes| && w.data[0] == w.pushes[k]
  {
  }

  lemma PushEnds(w: World, c: Id, k: nat, x: Datum, capacity: nat)
    requires Inv(w, capacity) && w.t.active != [] && c == w.t.active[0] && Now(w) == Some(Pushing(k, x)) && w.consumers == []
    ensures Inv(EndPush(w.(data := w.data + [x]), c, k, true), capacity)
  {
    PushGoes(w, k, x, capacity);
    var w' := EndPush(w.(data := w.data + [x]), c, k, true);
    assert Now(w') == None && Sent(w') == k + 1;
    hide Now, Sound;
  }

  lemma PushWakes(w: World, c: Id, k: nat, x: Datum, capacity: nat)
    requires Inv(w, capacity) && w.t.active != [] && c == w.t.active[0] && Now(w) == Some(Pushing(k, x)) && w.consumers != []
    ensures Inv(GoPush(w, c, k, x, capacity), capacity)
  {
    var d := w.consumers[0];
    PushGoes(w, k, x, capacity);
    assert PlacedAt(w, d, w.at[d]);
    SoundStep(w.t, Resume(d));
    var w' := GoPush(w, c, k, x, capacity);
    assert Now(w') == Some(Popping(w.pops - |w.consumers|)) && Sent(w') == k + 1;
    hide Now, Sound;
  }

  lemma GoPushKeeps(w: World, c: Id, k: nat, x: Datum, capacity: nat)
    requires Inv(w, capacity) && w.t.active != [] && c == w.t.active[0] && Now(w) == Some(Pushing(k, x))
    ensures Inv(GoPush(w, c, k, x, capacity), capacity)
  {
    hide Inv;
    PushGoes(w, k, x, capacity);
    if w.consumers == [] {
      PushEnds(w, c, k, x, capacity);
    } else {
      PushWakes(w, c, k, x, capacity);
    }
  }

  lemma PopEnds(w: World, c: Id, k: nat, capacity: nat)
    requires Inv(w, capacity) && w.t.active != [] && c == w.t.active[0] && Now(w) == Some(Popping(k)) && w.producers == []
    ensures Inv(GoPop(w, c, k), capacity)
  {
    PopGoes(w, k, capacity);
    var w' := GoPop(w, c, k);
    assert Now(w') == None && Taken(w') == k + 1;
    hide Now, Sound;
  }

  lemma PopWakes(w: World, c: Id, k: nat, capacity: nat)
    requires Inv(w, capacity) && w.t.active != [] && c == w.t.active[0] && Now(w) == Some(Popping(k)) && w.producers != []
    ensures Inv(GoPop(w, c, k), capacity)
  {
    var d := w.producers[0];
    PopGoes(w, k, capacity);
    assert PlacedAt(w, d, w.at[d]);
    SoundStep(w.t, Resume(d));
    var w' := GoPop(w, c, k);
    assert Now(w') == Some(Pushing(|w.pushes| - |w.producers|, w.pushes[|w.pushes| - |w.producers|])) && Taken(w') == k + 1;
    hide Now, Sound;
    assert Sent(w') == Sent(w);
  }

  lemma GoPopKeeps(w: World, c: Id, k: nat, capacity: nat)
    requires Inv(w, capacity) && w.t.active != [] && c == w.t.active[0] && Now(w) == Some(Popping(k))
    ensures Inv(GoPop(w, c, k), capacity)
  {
    hide Inv;
    if w.producers == [] {
      PopEnds(w, c, k, capacity);
    } else {
      PopWakes(w, c, k, capacity);
    }
  }

  lemma EndKeeps(w: World, c: Id, p: Point, capacity: nat)
    requires Inv(w, capacity) && w.t.active != [] && c == w.t.active[0] && Now(w) == Some(p)
    requires p.Notifying? || p.Returning?
    ensures Inv(GoOn(w, c, p, capacity), capacity)
  {
    var w' := GoOn(w, c, p, capacity);
    assert PlacedAt(w, c, p) && Now(w') == None;
    hide Now, Sound;
    assert Sent(w') == Sent(w) && Taken(w') == Taken(w);
  }

  lemma StepKeeps(w: World, s: Step, capacity: nat)
    requires Inv(w, capacity) && Can(w, s) && capacity > 0
    ensures Inv(Do(w, s, capacity), capacity)
  {
    hide Inv, CallPush, CallPop, GoPush, GoPop;
    if s.Outside? {
      OutsideKeeps(w, s.s, capacity);
      return;
    }
    var c := w.t.active[0];
    match s {
      case Push(x) =>
        if |w.data| == capacity {
          WaitPushKeeps(w, c, x, capacity);
        } else {
          BeginPush(w, c, x, capacity);
          GoPushKeeps(Entered(w, c, x), c, |w.pushes|, x, capacity);
          GoesOn(w, c, x, capacity);
        }
      case Pop =>
        if w.data == [] {
          WaitPopKeeps(w, c, capacity);
        } else {
          BeginPop(w, c, capacity);
          GoPopKeeps(EnteredPop(w, c), c, w.pops, capacity);
          GoesOnPop(w, c);
        }
      case Continue =>
        var p := w.at[c];
        match p {
          case Pushing(k, x) => GoPushKeeps(w, c, k, x, capacity);
          case Popping(k) => GoPopKeeps(w, c, k, capacity);
          case _ => EndKeeps(w, c, p, capacity);
        }
    }
  }

  // ---- Runs ----

  function Reached(run: seq<Step>, capacity: nat): World
  {
    if run == [] then EMPTY
    else
      var w := Reached(run[..|run| - 1], capacity);
      if Can(w, run[|run| - 1]) then Do(w, run[|run| - 1], capacity) else w
  }

  lemma {:induction false} Always(run: seq<Step>, capacity: nat)
    requires capacity > 0
    ensures Inv(Reached(run, capacity), capacity)
  {
    hide Inv, Do;
    if run == [] {
      Initially(capacity);
    } else {
      var w := Reached(run[..|run| - 1], capacity);
      Always(run[..|run| - 1], capacity);
      if Can(w, run[|run| - 1]) {
        StepKeeps(w, run[|run| - 1], capacity);
      }
    }
  }

  lemma Initially(capacity: nat)
    ensures Inv(EMPTY, capacity)
  {
  }

  /**
   * In every state a channel gets into: a pop that has returned gave the datum of the push of the same
   * rank, every push that has returned succeeded, producers and consumers do not both wait, and who was
   * woken finds room or a datum.
   */
  lemma ChannelOrder(run: seq<Step>, capacity: nat)
    requires capacity > 0
    ensures var w := Reached(run, capacity);
            && (forall k <- w.popped :: k < |w.pushes| && w.popped[k] == Some(w.pushes[k]))
            && (forall k <- w.pushed :: w.pushed[k])
            && |w.data| <= capacity
            && (w.producers == [] || w.consumers == [])
            && (WokenPush(w) ==> |w.data| < capacity)
            && (WokenPop(w) ==> w.data != [])
  {
    Always(run, capacity);
  }

  /** How many wait, when nobody was just woken: as many as are ahead of the other side and the capacity. */
  lemma WaitingExactly(run: seq<Step>, capacity: nat)
    requires capacity > 0
    ensures var w := Reached(run, capacity);
            !WokenPush(w) && !WokenPop(w) ==>
              && |w.consumers| == (if w.pops > |w.pushes| then w.pops - |w.pushes| else 0)
              && |w.producers| == (if |w.pushes| > w.pops + capacity then |w.pushes| - w.pops - capacity else 0)
  {
    Always(run, capacity);
    hide WokenPush, WokenPop, Queued, Placed;
  }

  lemma ReachedStep(run: seq<Step>, s: Step, capacity: nat)
    ensures var w := Reached(run, capacity); Reached(run + [s], capacity) == if Can(w, s) then Do(w, s, capacity) else w
  {
    assert (run + [s])[..|run|] == run;
  }

  // ---- Without capacity ----

  /** Every call waits, and all of them are suspended. */
  ghost predicate Stuck(w: World)
  {
    && Sound(w.t) && w.data == [] && w.pushed == map[] && w.popped == map[]
    && |w.producers| == |w.pushes| && |w.consumers| == w.pops
    && forall c <- w.at :: c in w.t.live && c !in w.t.active
  }

  lemma StuckStep(w: World, s: Step)
    requires Stuck(w) && Can(w, s)
    ensures Stuck(Do(w, s, 0))
  {
    assert !s.Continue?;
    SoundStep(w.t, if s.Outside? then s.s else Yield);
    hide Sound;
    var a := w.t.active;
    assert s.Outside? || forall c <- a[1..] :: c != a[0];
  }

  /** What holds in every state, with and without capacity. */
  ghost predicate Orderly(w: World, capacity: nat)
  {
    if capacity > 0 then Inv(w, capacity) else Stuck(w)
  }

  lemma OrderlyStep(w: World, s: Step, capacity: nat)
    requires Orderly(w, capacity) && Can(w, s)
    ensures Orderly(Do(w, s, capacity), capacity)
  {
    hide Inv, Stuck, Do, Can;
    if capacity > 0 {
      StepKeeps(w, s, capacity);
    } else {
      StuckStep(w, s);
    }
  }

  /** Without capacity nobody is woken. */
  lemma NobodyWokenWhenStuck(w: World)
    requires Stuck(w)
    ensures Now(w) == None && !WokenPush(w) && !WokenPop(w)
  {
    hide Sound;
  }

  /** With no capacity no call ever returns: nothing is pushed, nothing popped, everybody waits. */
  lemma {:induction false} NothingReturns(run: seq<Step>)
    ensures Stuck(Reached(run, 0))
  {
    if run != [] {
      NothingReturns(run[..|run| - 1]);
      var w, s := Reached(run[..|run| - 1], 0), run[|run| - 1];
      if Can(w, s) {
        StuckStep(w, s);
      }
    }
    hide Do;
  }

  /** A push and a pop that both wait. */
  lemma BothWait(x: Datum)
    ensures var w := Reached([Outside(Create), Push(x), Outside(Create), Pop], 0);
            w.producers == [1] && w.consumers == [2] && w.t.active == []
  {
    var r1 := [Outside(Create)];
    var r2 := r1 + [Push(x)];
    var r3 := r2 + [Outside(Create)];
    assert [] + [Outside(Create)] == r1;
    ReachedStep([], Outside(Create), 0);
    ReachedStep(r1, Push(x), 0);
    ReachedStep(r2, Outside(Create), 0);
    ReachedStep(r3, Pop, 0);
    assert Reached([], 0) == EMPTY;
    hide Reached;
    assert Reached(r1, 0).t == Threads([1], {1}, 1);
    assert Reached(r2, 0).t == Threads([], {1}, 1);
    assert Reached(r3, 0).t.active == [2];
    assert r3 + [Pop] == [Outside(Create), Push(x), Outside(Create), Pop];
  }

  /** Producers and consumers never both wait, in any run, if and only if the channel has a capacity. */
  lemma NeverBothWait(capacity: nat)
    ensures (forall run :: var w := Reached(run, capacity); w.producers == [] || w.consumers == []) <==> capacity > 0
  {
    if capacity > 0 {
      forall run
        ensures var w := Reached(run, capacity); w.producers == [] || w.consumers == []
      {
        ChannelOrder(run, capacity);
      }
    } else {
      BothWait(0);
      hide Reached;
      var run := [Outside(Create), Push(0), Outside(Create), Pop];
      assert Reached(run, 0).producers != [] && Reached(run, 0).consumers != [];
    }
  }
}
