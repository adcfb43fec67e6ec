/** The power-gating driver: one enable GPIO switches an external rail through a
    regulator EN pin, a load switch or a PFET driver, and the configuration says whether
    that pin is active high or active low. The GPIO output levels are a map from pin to
    level. */
module PowerGating {
  import opened Common

  /** `pg_technique_t`; a value outside the enumeration is kept as a code. */
  datatype Technique = RegEn | LoadSwitch | PfetDriver | UnknownTechnique(code: int)

  /** `pg_config_t`. */
  datatype PgConfig = PgConfig(technique: Technique, enableGpio: int, activeHigh: bool, stabilizeMs: nat)

  /** The zero-initialised static configuration before `pg_init` has stored one. */
  const ZeroConfig: PgConfig := PgConfig(RegEn, 0, false, 0)

  /** A pin number `1ULL << enable_gpio` is defined for. */
  predicate ValidPin(pin: int)
  {
    0 <= pin < 64
  }

  /** The level `pg_drive_on` writes: 1 for an active-high enable, 0 for active-low. */
  function OnLevel(activeHigh: bool): (level: int)
    ensures level in {0, 1}
    ensures level == 1 <==> activeHigh
  {
    if activeHigh then 1 else 0
  }

  /** The level `pg_drive_off` writes: always the other level. */
  function OffLevel(activeHigh: bool): (level: int)
    ensures level in {0, 1} && level != OnLevel(activeHigh)
    ensures level == 1 <==> !activeHigh
  {
    if activeHigh then 0 else 1
  }

  /** The output levels after the enable pin of `cfg` is driven on or off: that pin reads
      the chosen level and every other pin keeps its own. */
  function Drive(levels: map<int, int>, cfg: PgConfig, enable: bool): (r: map<int, int>)
    ensures cfg.enableGpio in r
    ensures r[cfg.enableGpio] == if enable then OnLevel(cfg.activeHigh) else OffLevel(cfg.activeHigh)
    ensures r.Keys == levels.Keys + {cfg.enableGpio}
    ensures forall p :: p in levels && p != cfg.enableGpio ==> r[p] == levels[p]
  {
    levels[cfg.enableGpio := if enable then OnLevel(cfg.activeHigh) else OffLevel(cfg.activeHigh)]
  }

  /** Driving the same way twice is the same as driving once. */
  lemma DriveIdempotent(levels: map<int, int>, cfg: PgConfig, enable: bool)
    ensures Drive(Drive(levels, cfg, enable), cfg, enable) == Drive(levels, cfg, enable)
  {
    var once := Drive(levels, cfg, enable);
    var twice := Drive(once, cfg, enable);
    assert twice.Keys == once.Keys;
    assert forall p :: p in once ==> twice[p] == once[p];
  }

  /** Only the last call counts: driving one way and then the other leaves the pin as
      the second call set it. */
  lemma LastDriveWins(levels: map<int, int>, cfg: PgConfig, first: bool, second: bool)
    ensures Drive(Drive(levels, cfg, first), cfg, second) == Drive(levels, cfg, second)
  {
    var a := Drive(Drive(levels, cfg, first), cfg, second);
    var b := Drive(levels, cfg, second);
    assert a.Keys == b.Keys;
    assert forall p :: p in a ==> a[p] == b[p];
  }

  /** The driver's state: the static configuration `s_cfg`, the pins configured as
      outputs, and the levels driven onto them. */
  class PowerGate {
    var cfg: PgConfig
    var outputs: set<int>
    var levels: map<int, int>

    constructor()
      ensures cfg == ZeroConfig && outputs == {} && levels == map[]
    {
      cfg := ZeroConfig;
      outputs := {};
      levels := map[];
    }

    /** `pg_init`: NULL changes nothing; otherwise the configuration is copied, the
        enable pin becomes an output, and the rail starts OFF. */
    method Init(c: Option<PgConfig>)
      requires c.Some? ==> ValidPin(c.value.enableGpio)
      modifies this
      ensures c.None? ==> cfg == old(cfg) && outputs == old(outputs) && levels == old(levels)
      ensures c.Some? ==> cfg == c.value
                          && outputs == old(outputs) + {c.value.enableGpio}
                          && levels == Drive(old(levels), c.value, false)
    {
      if c.None? {
        return;
      }
      cfg := c.value;
      outputs := outputs + {cfg.enableGpio};
      levels := Drive(levels, cfg, false);
    }

    /** `pg_set_enabled`: drive the stored configuration's enable pin ON or OFF. */
    method SetEnabled(enable: bool)
      modifies this
      ensures levels == Drive(old(levels), cfg, enable)
      ensures cfg == old(cfg) && outputs == old(outputs)
    {
      levels := Drive(levels, cfg, enable);
    }

    /** `pg_get_config`: the stored configuration. */
    method GetConfig() returns (c: PgConfig)
      ensures c == cfg
    {
      c := cfg;
    }
  }

  /** Right after `pg_init` the rail is off, whichever polarity the enable pin has, and
      `pg_get_config` returns the configuration given. */
  method InitThenQuery(c: PgConfig) returns (level: int, stored: PgConfig)
    requires ValidPin(c.enableGpio)
    ensures level == OffLevel(c.activeHigh) && level != OnLevel(c.activeHigh)
    ensures stored == c
  {
    var g := new PowerGate();
    g.Init(Some(c));
    level := g.levels[c.enableGpio];
    stored := g.GetConfig();
  }
}
