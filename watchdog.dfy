/**
 * The liveness watchdog.
 *
 * A watch is a stop action, the context object it is called with, and a
 * status flag that the owning stage sets on every heartbeat. The monitor
 * thread polls: it notes a fault when watching is enabled and some status is
 * false, clears every status, and on a fault sets should_stop and calls every
 * stop action in index order.
 *
 * The first half states the watchdog as a value (Dog) with one function per
 * operation; the lemmas prove the liveness and shutdown properties over runs
 * of operations. The class Monitor is the C struct, updated in place, and
 * each of its methods is proved to perform the corresponding function. Stop
 * actions are opaque values: instead of being called, the invocations are
 * returned as a list of (index, action, object) records.
 */
module Watchdog {
  import opened Wrappers

  datatype Watch<A, O> = Watch(action: A, obj: O, status: bool)

  /** One call of a stop action: which slot, which action and which context. */
  datatype Invocation<A, O> = Invocation(index: nat, action: A, obj: O)

  /** The state of struct Watchdog, without the thread and the mutex. */
  datatype Dog<A, O> = Dog(slots: seq<Watch<A, O>>, registeredCount: nat, watching: bool, shouldStop: bool)

  // ---------------------------------------------------------------------
  // The operations on values

  /** watchdog_create: no watchdog for 0 watches; otherwise all flags false and nothing registered. */
  function Created<A, O>(slots: seq<Watch<A, O>>): (d: Option<Dog<A, O>>)
    ensures d.None? <==> |slots| == 0
    ensures d.Some? ==>
      && d.value.slots == slots && d.value.registeredCount == 0
      && !d.value.watching && !d.value.shouldStop
  {
    if |slots| == 0 then None else Some(Dog(slots, 0, false, false))
  }

  /** watchdog_register_watch, for a caller that stays within the capacity. */
  function Register<A, O>(d: Dog<A, O>, action: A, obj: O): (r: (Dog<A, O>, nat))
    requires d.registeredCount < |d.slots|
    ensures r.1 == d.registeredCount && r.0.registeredCount == d.registeredCount + 1
    ensures |r.0.slots| == |d.slots|
    ensures r.0.slots[r.1] == Watch(action, obj, true)
    ensures forall j :: 0 <= j < |d.slots| && j != r.1 ==> r.0.slots[j] == d.slots[j]
    ensures r.0.watching == d.watching && r.0.shouldStop == d.shouldStop
  {
    (d.(slots := d.slots[d.registeredCount := Watch(action, obj, true)],
        registeredCount := d.registeredCount + 1),
     d.registeredCount)
  }

  /** watchdog_update: an index beyond the capacity is ignored. */
  function Heartbeat<A, O>(d: Dog<A, O>, index: nat): (r: Dog<A, O>)
    ensures |r.slots| == |d.slots|
    ensures forall j :: 0 <= j < |d.slots| ==>
      r.slots[j] == d.slots[j].(status := d.slots[j].status || j == index)
    ensures r.registeredCount == d.registeredCount
    ensures r.watching == d.watching && r.shouldStop == d.shouldStop
  {
    if index >= |d.slots| then d
    else d.(slots := d.slots[index := d.slots[index].(status := true)])
  }

  /** A fault: watching is enabled and some watch has not reported since the last poll. */
  predicate Faulty<A, O>(d: Dog<A, O>)
  {
    d.watching && exists i :: 0 <= i < |d.slots| && !d.slots[i].status
  }

  /** Every watch with its status reset for the next cycle. */
  function Cleared<A, O>(slots: seq<Watch<A, O>>): (r: seq<Watch<A, O>>)
    ensures |r| == |slots|
    ensures forall i :: 0 <= i < |slots| ==> r[i] == slots[i].(status := false)
    decreases |slots|
  {
    if slots == [] then [] else Cleared(slots[..|slots| - 1]) + [slots[|slots| - 1].(status := false)]
  }

  /** The stop actions of slots `from` and above, called in index order. */
  function StopCalls<A, O>(slots: seq<Watch<A, O>>, from: nat): (r: seq<Invocation<A, O>>)
    requires from <= |slots|
    ensures |r| == |slots| - from
    ensures forall k :: 0 <= k < |r| ==>
      r[k] == Invocation(from + k, slots[from + k].action, slots[from + k].obj)
    decreases |slots| - from
  {
    if from == |slots| then [] else [Invocation(from, slots[from].action, slots[from].obj)] + StopCalls(slots, from + 1)
  }

  /** One iteration of the monitor loop: the new state and the stop actions invoked. */
  function Poll<A, O>(d: Dog<A, O>): (r: (Dog<A, O>, seq<Invocation<A, O>>))
    ensures |r.0.slots| == |d.slots|
    ensures r.0.registeredCount == d.registeredCount && r.0.watching == d.watching
    ensures r.0.shouldStop == (d.shouldStop || Faulty(d))
    ensures r.1 != [] ==> Faulty(d)
    ensures Faulty(d) ==> |r.1| == |d.slots|
  {
    var cleared := d.(slots := Cleared(d.slots));
    if Faulty(d) then (cleared.(shouldStop := true), StopCalls(d.slots, 0)) else (cleared, [])
  }

  // ---------------------------------------------------------------------
  // Runs of operations after registration

  datatype Event = Beat(index: nat) | StartWatching | PauseWatching | RequestStop | Tick

  /**
   * One operation. A Tick is one turn of the monitor loop, which runs only
   * while should_stop is false: once it is set the loop has ended and a
   * Tick does nothing.
   */
  function Apply<A, O>(d: Dog<A, O>, e: Event): (Dog<A, O>, seq<Invocation<A, O>>)
  {
    match e
    case Beat(i) => (Heartbeat(d, i), [])
    case StartWatching => (d.(watching := true), [])
    case PauseWatching => (d.(watching := false), [])
    case RequestStop => (d.(shouldStop := true), [])
    case Tick => if d.shouldStop then (d, []) else Poll(d)
  }

  /** The final state of a run and every stop action it invoked, in order. */
  function RunEvents<A, O>(d: Dog<A, O>, es: seq<Event>): (Dog<A, O>, seq<Invocation<A, O>>)
    decreases |es|
  {
    if es == [] then (d, [])
    else
      var (d', calls) := Apply(d, es[0]);
      var (d'', rest) := RunEvents(d', es[1..]);
      (d'', calls + rest)
  }

  /** should_stop is only ever set to true: once set, it stays set through any run. */
  lemma {:induction false} StopIsSticky<A, O>(d: Dog<A, O>, es: seq<Event>)
    requires d.shouldStop
    ensures RunEvents(d, es).0.shouldStop
    decreases |es|
  {
    if es != [] {
      StopIsSticky(Apply(d, es[0]).0, es[1..]);
    }
  }

  /** No event changes the slot count, the registrations or any slot's action and object. */
  lemma ApplyKeepsShape<A, O>(d: Dog<A, O>, e: Event)
    ensures |Apply(d, e).0.slots| == |d.slots|
    ensures Apply(d, e).0.registeredCount == d.registeredCount
    ensures forall i :: 0 <= i < |d.slots| ==>
      Apply(d, e).0.slots[i].action == d.slots[i].action &&
      Apply(d, e).0.slots[i].obj == d.slots[i].obj
  {
  }

  lemma {:induction false} RunKeepsShape<A, O>(d: Dog<A, O>, es: seq<Event>)
    ensures |RunEvents(d, es).0.slots| == |d.slots|
    ensures RunEvents(d, es).0.registeredCount == d.registeredCount
    ensures forall i :: 0 <= i < |d.slots| ==>
      RunEvents(d, es).0.slots[i].action == d.slots[i].action &&
      RunEvents(d, es).0.slots[i].obj == d.slots[i].obj
    decreases |es|
  {
    if es != [] {
      var d' := Apply(d, es[0]).0;
      ApplyKeepsShape(d, es[0]);
      RunKeepsShape(d', es[1..]);
      assert RunEvents(d, es).0 == RunEvents(d', es[1..]).0;
    }
  }

  /** A poll finds a fault exactly when watching is on and some status is false, and always clears every status. */
  lemma PollClearsAndDetects<A, O>(d: Dog<A, O>)
    ensures forall i :: 0 <= i < |d.slots| ==> !Poll(d).0.slots[i].status
    ensures |d.slots| > 0 ==> (|Poll(d).1| > 0 <==> d.watching && exists i :: 0 <= i < |d.slots| && !d.slots[i].status)
  {
  }

  /**
   * On a fault every stop action is invoked exactly once, in index order,
   * with the object it was registered with, and should_stop becomes true.
   */
  lemma FaultStopsEveryWatch<A, O>(d: Dog<A, O>)
    requires Faulty(d)
    ensures Poll(d).0.shouldStop
    ensures |Poll(d).1| == |d.slots|
    ensures forall i :: 0 <= i < |d.slots| ==>
      Poll(d).1[i] == Invocation(i, d.slots[i].action, d.slots[i].obj)
  {
  }

  /** Without a fault no stop action is invoked and should_stop keeps its value. */
  lemma QuietPollStopsNothing<A, O>(d: Dog<A, O>)
    requires !Faulty(d)
    ensures Poll(d).1 == []
    ensures Poll(d).0.shouldStop == d.shouldStop && Poll(d).0.watching == d.watching
  {
  }

  /** One heartbeat for each index of `hs`, in order. */
  function Beats(hs: seq<nat>): (r: seq<Event>)
    ensures |r| == |hs|
    decreases |hs|
  {
    if hs == [] then [] else [Beat(hs[0])] + Beats(hs[1..])
  }

  /** Beats for indices `hs`, then a poll: one cycle of the stages and the monitor. */
  function Cycle(hs: seq<nat>): seq<Event>
  {
    Beats(hs) + [Tick]
  }

  function Cycles(rounds: seq<seq<nat>>): seq<Event>
    decreases |rounds|
  {
    if rounds == [] then [] else Cycle(rounds[0]) + Cycles(rounds[1..])
  }

  /** Every watch index occurs among the beats of a cycle. */
  ghost predicate Covers(hs: seq<nat>, n: nat)
  {
    forall i :: 0 <= i < n ==> i in hs
  }

  lemma {:induction false} RunAppend<A, O>(d: Dog<A, O>, xs: seq<Event>, ys: seq<Event>)
    ensures RunEvents(d, xs + ys).0 == RunEvents(RunEvents(d, xs).0, ys).0
    ensures RunEvents(d, xs + ys).1 == RunEvents(d, xs).1 + RunEvents(RunEvents(d, xs).0, ys).1
    decreases |xs|
  {
    if xs == [] {
      assert xs + ys == ys;
    } else {
      var (d', calls) := Apply(d, xs[0]);
      assert (xs + ys)[0] == xs[0];
      assert (xs + ys)[1..] == xs[1..] + ys;
      RunAppend(d', xs[1..], ys);
      assert RunEvents(d, xs + ys) == (RunEvents(d', xs[1..] + ys).0, calls + RunEvents(d', xs[1..] + ys).1);
      assert RunEvents(d, xs) == (RunEvents(d', xs[1..]).0, calls + RunEvents(d', xs[1..]).1);
    }
  }

  /**
   * Heartbeats only ever set statuses and mark every index they name; a
   * watch whose index they do not name is left exactly as it was.
   */
  lemma {:induction false} BeatsMark<A, O>(d: Dog<A, O>, hs: seq<nat>)
    ensures var e := RunEvents(d, Beats(hs));
      && e.1 == []
      && e.0.watching == d.watching && e.0.shouldStop == d.shouldStop
      && |e.0.slots| == |d.slots|
      && (forall i :: 0 <= i < |d.slots| && (i in hs || d.slots[i].status) ==> e.0.slots[i].status)
      && (forall j :: 0 <= j < |d.slots| && j !in hs ==> e.0.slots[j] == d.slots[j])
    decreases |hs|
  {
    if hs != [] {
      var d' := Heartbeat(d, hs[0]);
      BeatsMark(d', hs[1..]);
      forall i | 0 <= i < |d.slots| && (i in hs || d.slots[i].status)
        ensures i in hs[1..] || d'.slots[i].status
      {
        if i !in hs[1..] {
          assert i == hs[0] || d.slots[i].status;
        }
      }
      forall j | 0 <= j < |d.slots| && j !in hs
        ensures j !in hs[1..] && d'.slots[j] == d.slots[j]
      {
        assert j != hs[0];
      }
    }
  }

  /** The stop calls depend only on the actions and objects, not on the statuses. */
  lemma SameStopCalls<A, O>(s1: seq<Watch<A, O>>, s2: seq<Watch<A, O>>)
    requires |s1| == |s2|
    requires forall i :: 0 <= i < |s1| ==> s1[i].action == s2[i].action && s1[i].obj == s2[i].obj
    ensures StopCalls(s1, 0) == StopCalls(s2, 0)
  {
  }

  /**
   * A missed heartbeat stops everything: after a poll with watching on that
   * found no fault (so the loop goes on), a cycle whose beats do not name
   * some watch calls every stop action once,
   * in index order, with the object it was registered with, and sets
   * should_stop.
   */
  lemma MissedBeatStopsAll<A, O>(d: Dog<A, O>, hs: seq<nat>, j: nat)
    requires d.watching && !d.shouldStop && !Faulty(d) && j < |d.slots| && j !in hs
    ensures RunEvents(Poll(d).0, Cycle(hs)).1 == StopCalls(d.slots, 0)
    ensures RunEvents(Poll(d).0, Cycle(hs)).0.shouldStop
  {
    var d1 := Poll(d).0;
    assert d1.watching && |d1.slots| == |d.slots| && d1.slots[j] == d.slots[j].(status := false);
    BeatsMark(d1, hs);
    RunKeepsShape(d1, Beats(hs));
    var db := RunEvents(d1, Beats(hs)).0;
    assert db.slots[j] == d1.slots[j];
    assert Faulty(db);
    assert RunEvents(db, [Tick]) == Poll(db) by {
      assert [Tick][0] == Tick && [Tick][1..] == [];
      assert Poll(db).1 + [] == Poll(db).1;
    }
    RunAppend(d1, Beats(hs), [Tick]);
    SameStopCalls(db.slots, d.slots);
  }

  /**
   * Heartbeating every watch in every cycle never fires a stop: starting from
   * any state, a run of cycles whose beats cover all watches invokes no stop
   * action and leaves should_stop as it was.
   */
  lemma {:induction false} HeartbeatsPreventStops<A, O>(d: Dog<A, O>, rounds: seq<seq<nat>>)
    requires forall r :: 0 <= r < |rounds| ==> Covers(rounds[r], |d.slots|)
    ensures RunEvents(d, Cycles(rounds)).1 == []
    ensures RunEvents(d, Cycles(rounds)).0.shouldStop == d.shouldStop
    ensures |RunEvents(d, Cycles(rounds)).0.slots| == |d.slots|
    decreases |rounds|
  {
    if rounds != [] {
      var hs := rounds[0];
      var beats := Beats(hs);
      BeatsMark(d, hs);
      var d1 := RunEvents(d, beats).0;
      assert !Faulty(d1);
      RunAppend(d, beats, [Tick]);
      var d2 := Apply(d1, Tick).0;
      RunAppend(d, Cycle(hs), Cycles(rounds[1..]));
      HeartbeatsPreventStops(d2, rounds[1..]);
    }
  }

  /** Once should_stop is set, no run invokes any stop action. */
  lemma {:induction false} StoppedCallsNothing<A, O>(d: Dog<A, O>, es: seq<Event>)
    requires d.shouldStop
    ensures RunEvents(d, es).1 == []
    decreases |es|
  {
    if es != [] {
      StoppedCallsNothing(Apply(d, es[0]).0, es[1..]);
    }
  }

  /**
   * Every stop action is called at most once over the watchdog's life: any
   * run either calls nothing, or starts with should_stop false, calls each
   * slot's stop action exactly once, in index order, and ends with
   * should_stop set.
   */
  lemma {:induction false} StopsAtMostOnce<A, O>(d: Dog<A, O>, es: seq<Event>)
    ensures RunEvents(d, es).1 == [] ||
      (!d.shouldStop && RunEvents(d, es).1 == StopCalls(d.slots, 0) && RunEvents(d, es).0.shouldStop)
    decreases |es|
  {
    if es != [] {
      var (d', c) := Apply(d, es[0]);
      ApplyKeepsShape(d, es[0]);
      StopsAtMostOnce(d', es[1..]);
      if c == [] {
        assert d.shouldStop ==> d'.shouldStop;
        SameStopCalls(d'.slots, d.slots);
        assert RunEvents(d, es).1 == RunEvents(d', es[1..]).1;
      } else {
        assert es[0].Tick? && !d.shouldStop && Faulty(d);
        assert c == StopCalls(d.slots, 0) && d'.shouldStop;
        StoppedCallsNothing(d', es[1..]);
        StopIsSticky(d', es[1..]);
        assert RunEvents(d, es).1 == c + [];
      }
    }
  }

  // ---------------------------------------------------------------------
  // Registration

  /** Registering one watch per pair of `actions`, in order; the indices handed out, in order. */
  function RegisterAll<A, O>(d: Dog<A, O>, actions: seq<(A, O)>): (Dog<A, O>, seq<nat>)
    requires d.registeredCount + |actions| <= |d.slots|
    decreases |actions|
  {
    if actions == [] then (d, [])
    else
      var (d', i) := Register(d, actions[0].0, actions[0].1);
      var (d'', ids) := RegisterAll(d', actions[1..]);
      (d'', [i] + ids)
  }

  /**
   * Registration hands out consecutive indices starting at the current count,
   * and each registered slot holds its own action and object with status true.
   */
  lemma {:induction false} RegisterConsecutive<A, O>(d: Dog<A, O>, actions: seq<(A, O)>)
    requires d.registeredCount + |actions| <= |d.slots|
    ensures var (d', ids) := RegisterAll(d, actions);
      && |ids| == |actions|
      && (forall k :: 0 <= k < |ids| ==> ids[k] == d.registeredCount + k)
      && d'.registeredCount == d.registeredCount + |actions|
      && |d'.slots| == |d.slots|
      && (forall k :: 0 <= k < |actions| ==>
            d'.slots[d.registeredCount + k] == Watch(actions[k].0, actions[k].1, true))
      && (forall j :: 0 <= j < |d.slots| && !(d.registeredCount <= j < d.registeredCount + |actions|) ==>
            d'.slots[j] == d.slots[j])
      && d'.watching == d.watching && d'.shouldStop == d.shouldStop
    decreases |actions|
  {
    if actions != [] {
      var (d1, i) := Register(d, actions[0].0, actions[0].1);
      RegisterConsecutive(d1, actions[1..]);
      var (d', ids) := RegisterAll(d, actions);
      forall k | 0 <= k < |actions|
        ensures d'.slots[d.registeredCount + k] == Watch(actions[k].0, actions[k].1, true)
      {
        if k > 0 {
          assert actions[1..][k - 1] == actions[k];
        }
      }
    }
  }

  // ---------------------------------------------------------------------
  // The struct, updated in place

  class Monitor<A(0), O(0)> {
    const watches: nat
    const watchesArray: array<Watch<A, O>>
    var registeredCount: nat
    var watching: bool
    var shouldStop: bool

    ghost predicate Valid()
      reads this
    {
      && watchesArray.Length == watches
      && 0 < watches
      && registeredCount <= watches
    }

    /** The value this object stands for. */
    ghost function State(): Dog<A, O>
      reads this, watchesArray
    {
      Dog(watchesArray[..], registeredCount, watching, shouldStop)
    }

    constructor Init(watches: nat)
      requires 0 < watches
      ensures Valid() && fresh(watchesArray)
      ensures this.watches == watches
      ensures registeredCount == 0 && !watching && !shouldStop
    {
      this.watches := watches;
      watchesArray := new Watch<A, O>[watches];
      registeredCount := 0;
      watching, shouldStop := false, false;
    }

    /** watchdog_create: 0 watches yields no watchdog (NULL). */
    static method Create(watches: nat) returns (w: Monitor?<A, O>)
      ensures w == null <==> watches == 0
      ensures w != null ==>
        && fresh(w) && fresh(w.watchesArray) && w.Valid()
        && w.watches == watches
        && Some(w.State()) == Created(w.watchesArray[..])
    {
      if watches == 0 {
        return null;
      }
      w := new Monitor.Init(watches);
    }

    /**
     * watchdog_register_watch: returns the old count, increments it, and
     * stores the watch with status true; other slots are unchanged. The C
     * code does not check the capacity, so the caller must.
     */
    method RegisterWatch(action: A, obj: O) returns (index: nat)
      requires Valid() && registeredCount < watches
      modifies this, watchesArray
      ensures Valid()
      ensures (State(), index) == Register(old(State()), action, obj)
      ensures index == old(registeredCount) && registeredCount == old(registeredCount) + 1
      ensures watchesArray[index] == Watch(action, obj, true)
      ensures forall j :: 0 <= j < watches && j != index ==> watchesArray[j] == old(watchesArray[j])
      ensures watching == old(watching) && shouldStop == old(shouldStop)
    {
      index := registeredCount;
      registeredCount := registeredCount + 1;
      watchesArray[index] := Watch(action, obj, true);
    }

    /** watchdog_update: an index at or beyond the capacity is ignored; otherwise only that status becomes true. */
    method Update(index: nat)
      requires Valid()
      modifies watchesArray
      ensures Valid()
      ensures State() == Heartbeat(old(State()), index)
      ensures index >= watches ==> unchanged(watchesArray)
      ensures index < watches ==>
        && watchesArray[index] == old(watchesArray[index]).(status := true)
        && forall j :: 0 <= j < watches && j != index ==> watchesArray[j] == old(watchesArray[j])
    {
      if index >= watches {
        return;
      }
      watchesArray[index] := watchesArray[index].(status := true);
    }

    /** watchdog_start_watching */
    method StartWatching()
      requires Valid()
      modifies this`watching
      ensures Valid()
      ensures watching
      ensures State() == Apply(old(State()), Event.StartWatching).0
    {
      watching := true;
    }

    /** watchdog_pause_watching (watchdog_stop_watching in the earlier revision) */
    method PauseWatching()
      requires Valid()
      modifies this`watching
      ensures Valid()
      ensures !watching
      ensures State() == Apply(old(State()), Event.PauseWatching).0
    {
      watching := false;
    }

    /** watchdog_request_stop_synchronized */
    method RequestStop()
      requires Valid()
      modifies this`shouldStop
      ensures Valid()
      ensures shouldStop
      ensures State() == Apply(old(State()), Event.RequestStop).0
    {
      shouldStop := true;
    }

    /**
     * One iteration of watchdog_thread: scan and clear every slot, then on a
     * fault set should_stop and call every stop action in index order. A
     * fault calls the actions of all `watches` slots, so polling with watching
     * enabled needs every slot registered, as the program's startup ensures.
     */
    method PollOnce() returns (invoked: seq<Invocation<A, O>>)
      requires Valid()
      requires watching ==> registeredCount == watches
      modifies this, watchesArray
      ensures Valid()
      ensures (State(), invoked) == Poll(old(State()))
      ensures forall j :: 0 <= j < watches ==> watchesArray[j] == old(watchesArray[j]).(status := false)
      ensures registeredCount == old(registeredCount) && watching == old(watching)
      ensures shouldStop == (old(shouldStop) || Faulty(old(State())))
      ensures invoked == if Faulty(old(State())) then StopCalls(old(watchesArray[..]), 0) else []
    {
      ghost var before := watchesArray[..];
      var flag := false;
      var i := 0;
      while i < watches
        invariant 0 <= i <= watches
        invariant flag <==> watching && exists j :: 0 <= j < i && !before[j].status
        invariant forall j :: 0 <= j < i ==> watchesArray[j] == before[j].(status := false)
        invariant forall j :: i <= j < watches ==> watchesArray[j] == before[j]
        modifies watchesArray
      {
        if watching && !watchesArray[i].status {
          flag := true;
        }
        watchesArray[i] := watchesArray[i].(status := false);
        i := i + 1;
      }
      assert watchesArray[..] == Cleared(before);
      invoked := [];
      if flag {
        shouldStop := true;
        i := 0;
        while i < watches
          invariant 0 <= i <= watches
          invariant invoked + StopCalls(before, i) == StopCalls(before, 0)
          modifies {}
        {
          invoked := invoked + [Invocation(i, watchesArray[i].action, watchesArray[i].obj)];
          i := i + 1;
        }
      }
      ghost var d := old(State());
      assert d.slots == before;
      assert flag == Faulty(d);
      assert State() == Poll(d).0;
      assert invoked == Poll(d).1;
    }
  }

  /**
   * The watchdog test: two watches registered and heartbeating every cycle
   * let the polls pass; once both stop heartbeating, the next poll calls
   * both stop actions, each with its own object, and sets should_stop.
   */
  method TwoWatchScenario(stopA: int, objectA: int, stopB: int, objectB: int)
    returns (quiet: seq<Invocation<int, int>>, fired: seq<Invocation<int, int>>, stopped: bool)
    ensures quiet == []
    ensures fired == [Invocation(0, stopA, objectA), Invocation(1, stopB, objectB)]
    ensures stopped
  {
    var w := new Monitor<int, int>.Init(2);
    var a := w.RegisterWatch(stopA, objectA);
    var b := w.RegisterWatch(stopB, objectB);
    w.Update(a);
    w.Update(b);
    w.StartWatching();
    quiet := [];
    var k := 0;
    while k < 6
      invariant 0 <= k <= 6
      invariant w.Valid() && w.watches == 2 && w.registeredCount == 2 && w.watching && !w.shouldStop
      invariant w.watchesArray[0] == Watch(stopA, objectA, true) && w.watchesArray[1] == Watch(stopB, objectB, true)
      invariant quiet == []
    {
      var calls := w.PollOnce();
      quiet := quiet + calls;
      w.Update(a);
      w.Update(b);
      k := k + 1;
    }
    var calls := w.PollOnce();
    quiet := quiet + calls;
    fired := w.PollOnce();
    stopped := w.shouldStop;
  }
}
