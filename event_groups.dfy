/** The event-groups synchronisation demo: the event bits, the bits the init task sets,
    the GPIO task's stability counter, and the aggregator's all-bits check. The event
    group is a word of bits that tasks set and the aggregator waits on; the levels read
    from the GPIO, the peripherals' init results and the bits present when a wait
    returns are inputs. */
module EventGroups {
  import opened Common

  // The event group is kept as the set of bit positions that are set: setting a mask
  // is a union, and "all bits of a mask present" is inclusion.

  const EvtAdcInit: nat := 0
  const EvtGpioInit: nat := 1
  const EvtI2cInit: nat := 2
  const EvtNetInit: nat := 3

  const EvtAdcReady: nat := 8
  const EvtTempReady: nat := 9
  const EvtGpioReady: nat := 10

  const AllInitMask: set<nat> := {EvtAdcInit, EvtGpioInit, EvtI2cInit, EvtNetInit}
  const AllDataMask: set<nat> := {EvtAdcReady, EvtTempReady, EvtGpioReady}

  /** Samples in a row with the same level before the GPIO counts as stable. */
  const StableReads: nat := 3

  /** The init mask is bits 0..3, the data mask bits 8..10, and they share no bit. */
  lemma MaskLayout()
    ensures forall i :: i in AllInitMask <==> 0 <= i <= 3
    ensures forall i :: i in AllDataMask <==> 8 <= i <= 10
    ensures AllInitMask * AllDataMask == {}
  {
  }

  // ---------------------------------------------------------------------------
  // init_task

  /** The bits `init_task` sets: GPIO_INIT and ADC_INIT only when their initialisation
      succeeded, I2C_INIT and NET_INIT always. */
  function InitBits(gpioErr: EspErr, adcErr: EspErr): (m: set<nat>)
    ensures EvtI2cInit in m && EvtNetInit in m
    ensures EvtGpioInit in m <==> gpioErr == EspOk
    ensures EvtAdcInit in m <==> adcErr == EspOk
    ensures m <= AllInitMask
  {
    (if gpioErr == EspOk then {EvtGpioInit} else {})
    + (if adcErr == EspOk then {EvtAdcInit} else {})
    + {EvtI2cInit, EvtNetInit}
  }

  /** The tasks waiting for the whole init mask are released exactly when both
      peripheral initialisations succeeded. */
  lemma InitBarrier(gpioErr: EspErr, adcErr: EspErr)
    ensures AllInitMask <= InitBits(gpioErr, adcErr) <==> gpioErr == EspOk && adcErr == EspOk
  {
    if AllInitMask <= InitBits(gpioErr, adcErr) {
      assert EvtGpioInit in AllInitMask && EvtAdcInit in AllInitMask;
    }
  }

  /** A FreeRTOS event group. */
  class EventGroup {
    var bits: set<nat>

    constructor()
      ensures bits == {}
    {
      bits := {};
    }

    /** `xEventGroupSetBits`. */
    method SetBits(mask: set<nat>)
      modifies this
      ensures bits == old(bits) + mask
    {
      bits := bits + mask;
    }
  }

  /** `init_task` with the peripherals' init results as inputs. */
  method InitTask(g: EventGroup, gpioErr: EspErr, adcErr: EspErr)
    modifies g
    ensures g.bits == old(g.bits) + InitBits(gpioErr, adcErr)
  {
    if gpioErr == EspOk {
      g.SetBits({EvtGpioInit});
    }
    if adcErr == EspOk {
      g.SetBits({EvtAdcInit});
    }
    g.SetBits({EvtI2cInit});
    g.SetBits({EvtNetInit});
  }

  // ---------------------------------------------------------------------------
  // gpio_task

  /** The stability state of `gpio_task`: the level last seen and how many samples in
      a row have matched it. */
  datatype Stability = Stability(last: int, count: nat)

  /** One pass of `gpio_task`: a matching sample counts, a different one restarts the
      count from the new level; on reaching three the ready bit is set and the count
      starts again. */
  function Sample(s: Stability, cur: int): (r: (Stability, bool))
    requires s.count < StableReads
    ensures r.0.count < StableReads && r.0.last == cur
    ensures r.1 <==> cur == s.last && s.count == StableReads - 1
    ensures r.0.count == if cur != s.last then 0 else (s.count + 1) % StableReads
  {
    var next := if cur == s.last then Stability(s.last, s.count + 1) else Stability(cur, 0);
    if next.count >= StableReads then (Stability(next.last, 0), true) else (next, false)
  }

  /** The ready signals of a run of samples, one per sample. */
  function Readies(s: Stability, samples: seq<int>): (rs: seq<bool>)
    requires s.count < StableReads
    ensures |rs| == |samples|
    decreases |samples|
  {
    if samples == [] then []
    else
      var (s1, ready) := Sample(s, samples[0]);
      [ready] + Readies(s1, samples[1..])
  }

  /** The state after a run of samples. */
  function After(s: Stability, samples: seq<int>): (t: Stability)
    requires s.count < StableReads
    ensures t.count < StableReads
    decreases |samples|
  {
    if samples == [] then s else After(Sample(s, samples[0]).0, samples[1..])
  }

  /** With the level held constant, sample `i` signals ready exactly when the count
      started at `c` reaches a multiple of three at it. */
  lemma {:induction false} ConstantLevel(level: int, c: nat, n: nat, i: nat)
    requires c < StableReads && i < n
    ensures Readies(Stability(level, c), seq(n, _ => level))[i] <==> (c + i + 1) % 3 == 0
    decreases i
  {
    var samples := seq(n, _ => level);
    var (s1, ready) := Sample(Stability(level, c), level);
    assert s1 == Stability(level, (c + 1) % 3);
    if i > 0 {
      assert samples[1..] == seq(n - 1, _ => level);
      ConstantLevel(level, (c + 1) % 3, n - 1, i - 1);
    }
  }

  /** After the initial read, a level that does not change sets the ready bit on every
      third sample: the third, the sixth, and so on. */
  lemma EveryThirdSample(level: int, n: nat, i: nat)
    requires i < n
    ensures Readies(Stability(level, 0), seq(n, _ => level))[i] <==> (i + 1) % 3 == 0
  {
    ConstantLevel(level, 0, n, i);
  }

  /** A change of level always withholds the ready bit for the next two samples. */
  lemma ChangeRestarts(s: Stability, cur: int)
    requires s.count < StableReads && cur != s.last
    ensures Sample(s, cur) == (Stability(cur, 0), false)
    ensures var s1 := Sample(s, cur).0;
            !Sample(s1, cur).1 && !Sample(Sample(s1, cur).0, cur).1
  {
  }

  /** `gpio_task` after its initial read, driven by a run of samples: the state it keeps
      in `last` and `stable_count`. */
  class GpioMonitor {
    var last: int
    var stableCount: nat

    predicate Valid()
      reads this
    {
      stableCount < StableReads
    }

    function State(): Stability
      reads this
    {
      Stability(last, stableCount)
    }

    /** The task's start: block until GPIO_INIT, then read the initial level. */
    constructor(initial: int)
      ensures Valid() && State() == Stability(initial, 0)
    {
      last := initial;
      stableCount := 0;
    }

    /** One pass of the loop; GPIO_READY is set in `g` when the level is stable. */
    method Step(g: EventGroup, cur: int) returns (ready: bool)
      requires Valid()
      modifies this, g
      ensures Valid()
      ensures (State(), ready) == Sample(old(State()), cur)
      ensures g.bits == if ready then old(g.bits) + {EvtGpioReady} else old(g.bits)
    {
      if cur == last {
        stableCount := stableCount + 1;
      } else {
        stableCount := 0;
        last := cur;
      }
      ready := false;
      if stableCount >= StableReads {
        g.SetBits({EvtGpioReady});
        stableCount := 0;
        ready := true;
      }
    }

    /** The loop over a run of samples. */
    method Run(g: EventGroup, samples: seq<int>) returns (readies: seq<bool>)
      requires Valid()
      modifies this, g
      ensures Valid()
      ensures readies == Readies(old(State()), samples)
      ensures State() == After(old(State()), samples)
      ensures g.bits == ReadyBits(old(g.bits), readies)
    {
      readies := [];
      var i := 0;
      while i < |samples|
        invariant 0 <= i <= |samples| && Valid()
        invariant readies + Readies(State(), samples[i..]) == Readies(old(State()), samples)
        invariant After(State(), samples[i..]) == After(old(State()), samples)
        invariant g.bits == ReadyBits(old(g.bits), readies)
      {
        ghost var before := State();
        var ready := Step(g, samples[i]);
        ReadyBitsStep(old(g.bits), readies, ready);
        RunStep(before, samples, i);
        assert State() == Sample(before, samples[i]).0 && ready == Sample(before, samples[i]).1;
        ConcatAssoc(readies, [ready], Readies(State(), samples[i + 1..]));
        readies := readies + [ready];
        i := i + 1;
      }
    }
  }

  /** The event bits after a run of samples that signalled `readies`: GPIO_READY has
      been added if any sample signalled it, and nothing else has changed. */
  function ReadyBits(bits: set<nat>, readies: seq<bool>): (r: set<nat>)
  {
    if true in readies then bits + {EvtGpioReady} else bits
  }

  lemma ReadyBitsStep(bits: set<nat>, readies: seq<bool>, ready: bool)
    ensures ReadyBits(bits, readies + [ready])
            == if ready then ReadyBits(bits, readies) + {EvtGpioReady} else ReadyBits(bits, readies)
  {
    assert (true in readies + [ready]) <==> (true in readies) || ready;
  }

  /** Unfolding one sample off the front of the rest of a run. */
  lemma RunStep(s: Stability, samples: seq<int>, i: nat)
    requires s.count < StableReads && i < |samples|
    ensures Readies(s, samples[i..]) == [Sample(s, samples[i]).1] + Readies(Sample(s, samples[i]).0, samples[i + 1..])
    ensures After(s, samples[i..]) == After(Sample(s, samples[i]).0, samples[i + 1..])
  {
    assert samples[i..][1..] == samples[i + 1..];
  }

  // ---------------------------------------------------------------------------
  // aggregator_task

  /** One pass of `aggregator_task` after its wait returned with `bits`: a payload is
      published only when all three data bits are present, and those bits are then
      cleared (`xClearOnExit`); otherwise the pass logs a timeout and the group keeps
      its bits. */
  function AggregatorPass(bits: set<nat>): (r: (bool, set<nat>))
    ensures r.0 <==> EvtAdcReady in bits && EvtTempReady in bits && EvtGpioReady in bits
    ensures r.0 ==> r.1 == bits - AllDataMask
    ensures !r.0 ==> r.1 == bits
  {
    if AllDataMask <= bits then (true, bits - AllDataMask)
    else (false, bits)
  }

  /** Publishing needs every producer: whichever data bit is missing, there is no
      payload, and the init bits are never cleared by the aggregator. */
  lemma NoPayloadWithoutAll(bits: set<nat>, missing: nat)
    requires missing in AllDataMask && missing !in bits
    ensures !AggregatorPass(bits).0
    ensures AggregatorPass(bits).1 * AllInitMask == bits * AllInitMask
  {
  }
}
