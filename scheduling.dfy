/** The scheduling demo. In cooperative mode a periodic timer rotates through three
    phases and posts one event per tick into a bounded queue, and a single loop takes the
    events out one at a time and runs each handler to completion, adding to a counter. In
    preemptive mode tasks add to a shared counter through `counter_add`, one call at a
    time under a mutex. */
module Scheduling {
  import opened Common

  const EvtSensor: int := 1
  const EvtNet: int := 2
  const EvtUi: int := 3

  /** A queued `demo_event_t`: its id and the tick it was posted at. */
  datatype Event = Event(id: int, tick: nat)

  // ---------------------------------------------------------------------------
  // The timer's phase rotation

  /** The event `coop_timer_cb` posts once it has moved to `phase`. */
  function PhaseEvent(phase: int): (id: int)
    requires 0 <= phase < 3
    ensures id in {EvtSensor, EvtNet, EvtUi}
  {
    if phase == 0 then EvtSensor
    else if phase == 1 then EvtNet
    else EvtUi
  }

  /** The phase after `n` timer callbacks starting from `phase`. */
  function PhaseAfter(phase: int, n: nat): (p: int)
    requires 0 <= phase < 3
    ensures 0 <= p < 3
    decreases n
  {
    if n == 0 then phase else PhaseAfter((phase + 1) % 3, n - 1)
  }

  /** The ids posted by `n` timer callbacks starting from `phase`, in order. */
  function Posted(phase: int, n: nat): (ids: seq<int>)
    requires 0 <= phase < 3
    ensures |ids| == n
    decreases n
  {
    if n == 0 then []
    else
      var next := (phase + 1) % 3;
      [PhaseEvent(next)] + Posted(next, n - 1)
  }

  /** The first callback after start-up posts NET, then UI, then SENSOR. */
  lemma FirstCallbacks()
    ensures Posted(0, 3) == [EvtNet, EvtUi, EvtSensor]
  {
    assert Posted(0, 3) == [EvtNet] + Posted(1, 2);
    assert Posted(1, 2) == [EvtUi] + Posted(2, 1);
  }

  /** Callbacks can be split into a first run and the rest from where the first ended. */
  lemma {:induction false} PostedSplit(phase: int, a: nat, n: nat)
    requires 0 <= phase < 3 && a <= n
    ensures Posted(phase, n) == Posted(phase, a) + Posted(PhaseAfter(phase, a), n - a)
    decreases a
  {
    if a > 0 {
      var next := (phase + 1) % 3;
      var first := [PhaseEvent(next)];
      PostedSplit(next, a - 1, n - 1);
      assert Posted(phase, n) == first + Posted(next, n - 1);
      assert Posted(phase, a) == first + Posted(next, a - 1);
      ConcatAssoc(first, Posted(next, a - 1), Posted(PhaseAfter(next, a - 1), n - a));
    }
  }

  /** The three callbacks from each phase, written out. */
  lemma ThreeCallbacks(phase: int)
    requires 0 <= phase < 3
    ensures phase == 0 ==> Posted(phase, 3) == [EvtNet, EvtUi, EvtSensor]
    ensures phase == 1 ==> Posted(phase, 3) == [EvtUi, EvtSensor, EvtNet]
    ensures phase == 2 ==> Posted(phase, 3) == [EvtSensor, EvtNet, EvtUi]
  {
    var p1 := (phase + 1) % 3;
    var p2 := (p1 + 1) % 3;
    var p3 := (p2 + 1) % 3;
    assert Posted(phase, 3) == [PhaseEvent(p1)] + Posted(p1, 2);
    assert Posted(p1, 2) == [PhaseEvent(p2)] + Posted(p2, 1);
    assert Posted(p2, 1) == [PhaseEvent(p3)];
  }

  /** Three callbacks from any phase post one event of each kind. */
  lemma ThreeFromAnyPhase(phase: int)
    requires 0 <= phase < 3
    ensures multiset(Posted(phase, 3)) == multiset{EvtSensor, EvtNet, EvtUi}
  {
    ThreeCallbacks(phase);
  }

  /** The `k` callbacks that follow the first `i` are those of a run started where the
      first `i` ended. */
  lemma PostedWindow(phase: int, n: nat, i: nat, k: nat)
    requires 0 <= phase < 3 && i + k <= n
    ensures Posted(phase, n)[i..i + k] == Posted(PhaseAfter(phase, i), k)
  {
    var mid := PhaseAfter(phase, i);
    var pre, post := Posted(phase, i), Posted(mid, n - i);
    PostedSplit(phase, i, n);
    PostedSplit(mid, k, n - i);
    SliceAfter(pre, post, k);
    PrefixOfConcat(Posted(mid, k), Posted(PhaseAfter(mid, k), n - i - k));
  }

  /** Any three consecutive callbacks post one event of each kind. */
  lemma ThreeConsecutive(phase: int, n: nat, i: nat)
    requires 0 <= phase < 3 && i + 3 <= n
    ensures multiset(Posted(phase, n)[i..i + 3]) == multiset{EvtSensor, EvtNet, EvtUi}
  {
    PostedWindow(phase, n, i, 3);
    ThreeFromAnyPhase(PhaseAfter(phase, i));
  }

  // ---------------------------------------------------------------------------
  // The handlers

  /** What handling an event adds to the cooperative counter: SENSOR 1, NET 2, UI 3,
      and nothing for an id the loop does not know. */
  function Increment(id: int): (d: nat)
    ensures d == 0 <==> id !in {EvtSensor, EvtNet, EvtUi}
    ensures d != 0 ==> d == id
  {
    if id == EvtSensor then 1
    else if id == EvtNet then 2
    else if id == EvtUi then 3
    else 0
  }

  /** The total the handlers add for a run of events, before wrapping. */
  function TotalIncrement(es: seq<Event>): (t: nat)
    ensures t <= 3 * |es|
  {
    if es == [] then 0 else Increment(es[0].id) + TotalIncrement(es[1..])
  }

  lemma {:induction false} TotalIncrementAppend(a: seq<Event>, b: seq<Event>)
    ensures TotalIncrement(a + b) == TotalIncrement(a) + TotalIncrement(b)
    decreases |a|
  {
    if a != [] {
      TotalIncrementAppend(a[1..], b);
      assert (a + b)[1..] == a[1..] + b;
    } else {
      assert a + b == b;
    }
  }

  /** Every full rotation of the timer is worth 6 to the counter. */
  lemma RotationWorthSix(phase: int, es: seq<Event>)
    requires 0 <= phase < 3 && |es| == 3
    requires forall i :: 0 <= i < 3 ==> es[i].id == Posted(phase, 3)[i]
    ensures TotalIncrement(es) == 6
  {
    ThreeCallbacks(phase);
    var ids := Posted(phase, 3);
    var t2 := es[1..][1..];
    assert t2[1..] == [] && t2[0] == es[2];
    assert TotalIncrement(t2) == Increment(ids[2]);
    assert es[1..][0] == es[1];
    assert TotalIncrement(es[1..]) == Increment(ids[1]) + Increment(ids[2]);
    assert TotalIncrement(es) == Increment(ids[0]) + Increment(ids[1]) + Increment(ids[2]);
  }

  /** The cooperative demo's state: the timer's static phase, the event queue of
      `CONFIG_COOP_EVENT_QUEUE_LEN` entries, and `g_coop_counter`. */
  class CoopLoop {
    var phase: int
    var queue: seq<Event>
    const capacity: nat
    var counter: nat

    predicate Valid()
      reads this
    {
      0 <= phase < 3 && |queue| <= capacity && counter < U32Mod
    }

    constructor(capacity: nat)
      ensures Valid()
      ensures this.capacity == capacity && phase == 0 && queue == [] && counter == 0
    {
      this.capacity := capacity;
      phase := 0;
      queue := [];
      counter := 0;
    }

    /** `post_event_from_timer`: the event goes to the back of the queue when there is
        room and is dropped otherwise; the tick is taken as a 32-bit value. */
    method Post(id: int, tick: nat)
      requires Valid()
      modifies this
      ensures Valid()
      ensures queue == if |old(queue)| < capacity then old(queue) + [Event(id, tick % U32Mod)] else old(queue)
      ensures phase == old(phase) && counter == old(counter)
    {
      if |queue| < capacity {
        queue := queue + [Event(id, tick % U32Mod)];
      }
    }

    /** `coop_timer_cb`: move to the next phase and post its event. */
    method TimerCallback(tick: nat)
      requires Valid()
      modifies this
      ensures Valid()
      ensures phase == (old(phase) + 1) % 3
      ensures [PhaseEvent(phase)] == Posted(old(phase), 1)
      ensures queue == if |old(queue)| < capacity then old(queue) + [Event(PhaseEvent(phase), tick % U32Mod)]
                       else old(queue)
      ensures counter == old(counter)
    {
      phase := (phase + 1) % 3;
      Post(PhaseEvent(phase), tick);
    }

    /** One pass of `coop_main_loop_task`: the oldest event is taken out and its handler
        runs to completion before anything else is looked at. With the queue empty the
        loop would block; here nothing happens. */
    method HandleNext() returns (handled: Option<Event>)
      requires Valid()
      modifies this
      ensures Valid()
      ensures old(queue) == [] ==> handled == None && queue == [] && counter == old(counter)
      ensures old(queue) != [] ==>
                handled == Some(old(queue)[0]) && queue == old(queue)[1..]
                && counter == (old(counter) + Increment(old(queue)[0].id)) % U32Mod
      ensures phase == old(phase)
    {
      if queue == [] {
        return None;
      }
      var e := queue[0];
      queue := queue[1..];
      counter := (counter + Increment(e.id)) % U32Mod;
      handled := Some(e);
    }

    /** The loop running until the queue is empty: the events are handled in the order
        they were posted, each exactly once, and the counter grows by their total. */
    method Drain() returns (handled: seq<Event>)
      requires Valid()
      modifies this
      ensures Valid()
      ensures handled == old(queue) && queue == []
      ensures counter == (old(counter) + TotalIncrement(old(queue))) % U32Mod
      ensures phase == old(phase)
    {
      handled := [];
      while queue != []
        invariant Valid() && phase == old(phase)
        invariant handled + queue == old(queue)
        invariant counter == (old(counter) + TotalIncrement(handled)) % U32Mod
        decreases |queue|
      {
        ghost var q := queue;
        var e := HandleNext();
        assert q == [e.value] + queue;
        ConcatAssoc(handled, [e.value], queue);
        TotalIncrementAppend(handled, [e.value]);
        assert TotalIncrement([e.value]) == Increment(e.value.id);
        ModAddU32(old(counter), TotalIncrement(handled), Increment(e.value.id));
        handled := handled + [e.value];
      }
    }
  }

  // ---------------------------------------------------------------------------
  // Preemptive mode: counter_add

  /** The sum of a run of increments. */
  function Total(ds: seq<nat>): nat
  {
    if ds == [] then 0 else ds[0] + Total(ds[1..])
  }

  lemma {:induction false} TotalAppend(a: seq<nat>, b: seq<nat>)
    ensures Total(a + b) == Total(a) + Total(b)
    decreases |a|
  {
    if a != [] {
      TotalAppend(a[1..], b);
      assert (a + b)[1..] == a[1..] + b;
    } else {
      assert a + b == b;
    }
  }

  /** Taking one increment out of a run leaves the rest of the total. */
  lemma TotalRemove(b: seq<nat>, j: nat)
    requires j < |b|
    ensures Total(b) == b[j] + Total(b[..j] + b[j + 1..])
  {
    var front, back := b[..j], b[j + 1..];
    var tail := [b[j]] + back;
    assert b == front + tail;
    TotalAppend(front, tail);
    assert tail[1..] == back;
    assert Total(tail) == b[j] + Total(back);
    TotalAppend(front, back);
  }

  lemma MultisetRemove<T>(b: seq<T>, j: nat)
    requires j < |b|
    ensures multiset(b[..j] + b[j + 1..]) == multiset(b) - multiset{b[j]}
  {
    assert b == b[..j] + [b[j]] + b[j + 1..];
  }

  /** A position at which an element of a sequence's multiset occurs. */
  lemma IndexOf<T>(b: seq<T>, x: T) returns (j: nat)
    requires x in multiset(b)
    ensures j < |b| && b[j] == x
  {
    assert x in b;
    j :| 0 <= j < |b| && b[j] == x;
  }

  /** The order of the increments does not change their total. */
  lemma {:induction false} TotalPermutation(a: seq<nat>, b: seq<nat>)
    requires multiset(a) == multiset(b)
    ensures Total(a) == Total(b)
    decreases |a|
  {
    if a == [] {
      assert |b| == |multiset(b)| == 0;
    } else {
      var j := IndexOf(b, a[0]);
      var rest := b[..j] + b[j + 1..];
      MultisetRemove(b, j);
      assert a == [a[0]] + a[1..];
      assert multiset(a[1..]) == multiset(rest);
      TotalPermutation(a[1..], rest);
      TotalRemove(b, j);
    }
  }

  /** `g_shared_counter`, read and written only inside `counter_add`. */
  class SharedCounter {
    var value: nat

    predicate Valid()
      reads this
    {
      value < U32Mod
    }

    constructor()
      ensures Valid() && value == 0
    {
      value := 0;
    }

    /** `counter_add`: add `delta` as a `uint32_t` and return the value just written. */
    method Add(delta: nat) returns (v: nat)
      requires Valid()
      modifies this
      ensures Valid()
      ensures value == (old(value) + delta) % U32Mod && v == value
    {
      value := (value + delta) % U32Mod;
      v := value;
    }
  }

  /** The calls of `counter_add` in the order the mutex let them through: each returns
      the running total, and the final value is the start plus the sum of all of them. */
  method AddAll(c: SharedCounter, ds: seq<nat>) returns (seen: seq<nat>)
    requires c.Valid()
    modifies c
    ensures c.Valid()
    ensures c.value == (old(c.value) + Total(ds)) % U32Mod
    ensures |seen| == |ds|
    ensures forall i :: 0 <= i < |ds| ==> seen[i] == (old(c.value) + Total(ds[..i + 1])) % U32Mod
  {
    seen := [];
    var i := 0;
    while i < |ds|
      invariant 0 <= i <= |ds| && c.Valid() && |seen| == i
      invariant c.value == (old(c.value) + Total(ds[..i])) % U32Mod
      invariant forall k :: 0 <= k < i ==> seen[k] == (old(c.value) + Total(ds[..k + 1])) % U32Mod
    {
      var v := c.Add(ds[i]);
      TotalAppend(ds[..i], [ds[i]]);
      assert ds[..i + 1] == ds[..i] + [ds[i]];
      assert Total([ds[i]]) == ds[i];
      ModAddU32(old(c.value), Total(ds[..i]), ds[i]);
      seen := seen + [v];
      i := i + 1;
    }
    assert ds[..|ds|] == ds;
  }

  /** Whatever order the tasks' calls are serialised in, the counter ends at the same
      value. */
  lemma OrderDoesNotMatter(start: nat, a: seq<nat>, b: seq<nat>)
    requires multiset(a) == multiset(b)
    ensures (start + Total(a)) % U32Mod == (start + Total(b)) % U32Mod
  {
    TotalPermutation(a, b);
  }
}
