/** The LEDC PWM demo: validation of the requested duty cycle, its conversion into a raw
    duty value for the timer resolution, and the order in which `app_main` configures the
    peripheral and gives up. */
module Pwm {
  import opened Common

  const PwmGpio: int := 35
  const PwmFreqHz: nat := 5000
  const PwmDutyPercent: int := 75
  const PwmResBits: nat := 13

  const U64Mod: int := 0x1_0000_0000_0000_0000
  const I32Min: int := -0x8000_0000
  const I32Max: int := 0x7FFF_FFFF

  /** `pwm_validate_duty_percent`: only the demo's 20..90 window is accepted, and
      nothing outside 0..100. */
  function ValidDutyPercent(pct: int): (ok: bool)
    ensures ok <==> 20 <= pct <= 90
    ensures (pct < 0 || pct > 100) ==> !ok
  {
    if pct < 0 || pct > 100 then false
    else pct >= 20 && pct <= 90
  }

  /** `(1U << res_bits) - 1U`: the largest raw duty at the given resolution. */
  function MaxDuty(resBits: nat): (m: nat)
    requires resBits < 32
    ensures m < U32Mod
  {
    (((1 as bv32) << resBits) - 1) as nat
  }

  /** `pwm_compute_duty`: `pct` is converted to `uint64_t` (wrapping when negative), the
      product is taken modulo 2^64, divided by 100 and truncated to 32 bits. */
  function ComputeDuty(resBits: nat, pct: int): (duty: nat)
    requires resBits < 32
    requires I32Min <= pct <= I32Max
    ensures duty < U32Mod
  {
    var wide := ((pct % U64Mod) * MaxDuty(resBits)) % U64Mod;
    (wide / 100) % U32Mod
  }

  lemma MulLe(a: nat, b: nat, m: nat)
    requires a <= b
    ensures a * m <= b * m
  {
  }

  lemma DivLe(a: nat, b: nat)
    requires a <= b
    ensures a / 100 <= b / 100
  {
  }

  lemma ModSmall(x: int, n: int)
    requires 0 <= x < n
    ensures x % n == x
  {
  }

  /** For a percentage in 0..100 nothing wraps: the raw duty is the floor of
      `pct * (2^res - 1) / 100` and never exceeds the maximum duty. */
  lemma DutyInRange(resBits: nat, pct: int)
    requires resBits < 32 && 0 <= pct <= 100
    ensures ComputeDuty(resBits, pct) == pct * MaxDuty(resBits) / 100
    ensures ComputeDuty(resBits, pct) <= MaxDuty(resBits)
  {
    var m := MaxDuty(resBits);
    var w := pct * m;
    MulLe(pct, 100, m);
    assert w <= 100 * m;
    ModSmall(pct, U64Mod);
    ModSmall(w, U64Mod);
    DivLe(w, 100 * m);
    assert 100 * m / 100 == m;
    ModSmall(w / 100, U32Mod);
  }

  /** 0% gives a raw duty of 0 and 100% gives the maximum. */
  lemma DutyEnds(resBits: nat)
    requires resBits < 32
    ensures ComputeDuty(resBits, 0) == 0
    ensures ComputeDuty(resBits, 100) == MaxDuty(resBits)
  {
    DutyInRange(resBits, 0);
    DutyInRange(resBits, 100);
  }

  /** At 13 bits (0..8191) half duty is 4095, and the demo's 75% is 6143. */
  lemma DutyAt13Bits()
    ensures MaxDuty(13) == 8191
    ensures ComputeDuty(13, 50) == 4095
    ensures ComputeDuty(13, PwmDutyPercent) == 6143
  {
    assert ((1 as bv32) << 13) == 8192;
    DutyInRange(13, 50);
    DutyInRange(13, 75);
  }

  /** Within 0..100 a larger percentage never gives a smaller raw duty. */
  lemma DutyMonotone(resBits: nat, p: int, q: int)
    requires resBits < 32 && 0 <= p <= q <= 100
    ensures ComputeDuty(resBits, p) <= ComputeDuty(resBits, q)
  {
    DutyInRange(resBits, p);
    DutyInRange(resBits, q);
    MulLe(p, q, MaxDuty(resBits));
    DivLe(p * MaxDuty(resBits), q * MaxDuty(resBits));
  }

  /** The LEDC driver calls `app_main` makes. */
  datatype LedcCall =
    | TimerConfig(resBits: nat, freqHz: nat)
    | ChannelConfig(gpio: int, duty: nat)

  /** `app_main` with the duty percentage as a parameter and the driver's answers to the
      timer and channel configuration as inputs: the calls made, and whether PWM started. */
  function AppMain(pct: int, timerErr: EspErr, channelErr: EspErr): (r: (seq<LedcCall>, bool))
    requires I32Min <= pct <= I32Max
    ensures r.1 <==> ValidDutyPercent(pct) && timerErr == EspOk && channelErr == EspOk
    ensures r.0 == [] <==> !ValidDutyPercent(pct)
    ensures r.0 != [] ==> r.0[0] == TimerConfig(PwmResBits, PwmFreqHz)
    ensures |r.0| == 2 <==> ValidDutyPercent(pct) && timerErr == EspOk
    ensures |r.0| == 2 ==> r.0[1].ChannelConfig? && r.0[1].gpio == PwmGpio
                           && r.0[1].duty == pct * MaxDuty(PwmResBits) / 100
                           && r.0[1].duty <= MaxDuty(PwmResBits)
  {
    if !ValidDutyPercent(pct) then ([], false)
    else if timerErr != EspOk then ([TimerConfig(PwmResBits, PwmFreqHz)], false)
    else
      var duty := ComputeDuty(PwmResBits, pct);
      DutyInRange(PwmResBits, pct);
      ([TimerConfig(PwmResBits, PwmFreqHz), ChannelConfig(PwmGpio, duty)], channelErr == EspOk)
  }

  /** The demo's configuration starts PWM at raw duty 6143 when the driver accepts both
      configurations. */
  lemma DemoStarts()
    ensures AppMain(PwmDutyPercent, EspOk, EspOk)
            == ([TimerConfig(13, 5000), ChannelConfig(35, 6143)], true)
  {
    DutyAt13Bits();
  }
}
