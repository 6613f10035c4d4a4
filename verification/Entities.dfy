/** The entity tables of mqtt/entities.go and the topics they give rise to. */
module Entities {

  /** How a field becomes a payload. */
  datatype Rendering = Trimmed | Pct15 | Inv100 | Round0 | Round2 | AsText

  /**
   One published entity: the snapshot field it shows, and its object id. A zone entity's
   id is `prefix + zone name + suffix`; a system entity's is `prefix` alone.
   */
  datatype Entity = Entity(field: string, prefix: string, suffix: string, rendering: Rendering)

  const SYS: seq<Entity> := [
    Entity("compressor_stage", "compressor_stage", "", Trimmed),
    Entity("compressor_rpm", "compressor_rpm", "", Trimmed),
    Entity("supply_cfm", "supply_cfm", "", Trimmed),
    Entity("blower_rpm", "blower_rpm", "", Trimmed),
    Entity("static_pressure", "static_pressure", "", Round2),
    Entity("blower_watts", "blower_watts", "", Round0),
    Entity("suction_pressure", "suction_pressure", "", Trimmed),
    Entity("outdoor_coil_temp", "outdoor_coil_temp", "", Trimmed),
    Entity("discharge_temp", "discharge_temp", "", Trimmed),
    Entity("outdoor_temp", "outdoor_temp", "", Trimmed),
    Entity("supply_air_temp", "supply_air_temp", "", Trimmed),
    Entity("suction_temp", "suction_temp", "", Trimmed),
    Entity("superheat", "superheat", "", Trimmed),
    Entity("line_voltage", "line_voltage", "", Trimmed),
    Entity("filter_life_used", "filter_life", "", Inv100),
    Entity("heat_stage1_cycles", "heat_stage1_cycles", "", Trimmed),
    Entity("heat_stage2_cycles", "heat_stage2_cycles", "", Trimmed),
    Entity("blower_cycles", "blower_cycles", "", Trimmed),
    Entity("cool_cycles", "cool_cycles", "", Trimmed),
    Entity("heat_stage1_hours", "heat_stage1_hours", "", Trimmed),
    Entity("heat_stage2_hours", "heat_stage2_hours", "", Trimmed),
    Entity("blower_hours", "blower_hours", "", Trimmed),
    Entity("cool_hours", "cool_hours", "", Trimmed),
    Entity("idu_power_cycles", "idu_power_cycles", "", Trimmed),
    Entity("odu_power_cycles", "odu_power_cycles", "", Trimmed),
    Entity("system_mode", "system_mode", "", AsText)
  ]

  const ZONE: seq<Entity> := [
    Entity("temp", "zone_", "_temp", Trimmed),
    Entity("humidity", "zone_", "_humidity", Trimmed),
    Entity("cool_setpoint", "zone_", "_cool_setpoint", Trimmed),
    Entity("heat_setpoint", "zone_", "_heat_setpoint", Trimmed),
    Entity("fan_mode", "zone_", "_fan_mode", AsText),
    Entity("hold", "zone_", "_hold", Trimmed),
    Entity("hold_permanent", "zone_", "_hold_permanent", Trimmed),
    Entity("hold_remaining_min", "zone_", "_hold_remaining", Round0),
    Entity("damper_position", "damper_", "", Pct15)
  ]

  /** The object ids `PublishHealth` writes, in its order. */
  const HEALTH: seq<string> := [
    "frames_per_min", "unknown_frames", "sam_failures", "fault_count", "last_fault", "fault_active", "bus_online"
  ]

  datatype Config = Config(baseTopic: string, zoneNames: seq<string>)

  function Digit(d: nat): char
    requires d < 10
  {
    '0' + d as char
  }

  /** Decimal rendering. */
  function Decimal(n: nat): (s: string)
    ensures s != ""
  {
    if n < 10 then [Digit(n)] else Decimal(n / 10) + [Digit(n % 10)]
  }

  /** `%d` of a Go int. */
  function Signed(z: int): string {
    if z < 0 then "-" + Decimal(-z) else Decimal(z)
  }

  function Fallback(z: int): string {
    "zone_" + Signed(z)
  }

  /** The configuration has a name for the zone. */
  predicate Configured(cfg: Config, z: int) {
    1 <= z <= |cfg.zoneNames| && cfg.zoneNames[z - 1] != ""
  }

  function ZoneName(cfg: Config, z: int): string {
    if Configured(cfg, z) then cfg.zoneNames[z - 1] else Fallback(z)
  }

  // ----- Slots: the state topics there can be -----

  datatype Slot = SysSlot(i: nat) | ZoneSlot(z: int, i: nat)

  predicate IsSlot(s: Slot) {
    match s
    case SysSlot(i) => i < |SYS|
    case ZoneSlot(_, i) => i < |ZONE|
  }

  function EntityOf(s: Slot): Entity
    requires IsSlot(s)
  {
    match s
    case SysSlot(i) => SYS[i]
    case ZoneSlot(_, i) => ZONE[i]
  }

  function Object(cfg: Config, s: Slot): string
    requires IsSlot(s)
  {
    match s
    case SysSlot(i) => SYS[i].prefix
    case ZoneSlot(z, i) => ZONE[i].prefix + ZoneName(cfg, z) + ZONE[i].suffix
  }

  function StateTopic(cfg: Config, id: string): string {
    cfg.baseTopic + "/" + id + "/state"
  }

  function Topic(cfg: Config, s: Slot): string
    requires IsSlot(s)
  {
    StateTopic(cfg, Object(cfg, s))
  }

  // ----- Distinctness -----

  lemma StateTopicInjective(cfg: Config, a: string, b: string)
    requires StateTopic(cfg, a) == StateTopic(cfg, b)
    ensures a == b
  {
    var head := cfg.baseTopic + "/";
    var ta, tb := StateTopic(cfg, a), StateTopic(cfg, b);
    assert |a| == |b|;
    assert ta[|head|..|head| + |a|] == a;
    assert tb[|head|..|head| + |b|] == b;
  }

  /**
   The position of a fixed object id among the system ids followed by the health ids,
   read off its length and a character or two.
   */
  function Rank(s: string): int {
    match |s|
    case 9 => 12
    case 10 =>
      if s[0] == 's' then 2 else if s[1] == 'l' then 3 else if s[0] == 'c' then 22
      else if s[0] == 'l' then 30 else 32
    case 11 => if s[1] == 'i' then 14 else if s[0] == 'c' then 18 else if s[0] == 's' then 25 else 29
    case 12 =>
      if s[7] == 'w' then 5 else if s[0] == 'o' then 9 else if s[1] == 'u' then 11
      else if s[0] == 'l' then 13 else if s[0] == 'b' then 21 else if s[0] == 's' then 28 else 31
    case 13 => 17
    case 14 => if s[0] == 'c' then 1 else if s[0] == 'd' then 8 else if s[0] == 'f' then 26 else 27
    case 15 => if s[1] == 't' then 4 else 10
    case 16 => if s[0] == 'c' then 0 else if s[0] == 's' then 6 else if s[0] == 'i' then 23 else 24
    case 17 => if s[0] == 'o' then 7 else if s[10] == '1' then 19 else 20
    case 18 => if s[10] == '1' then 15 else 16
    case _ => -1
  }

  /** `id` is the fixed id of rank `r`, and unlike every zone id. */
  ghost predicate FixedId(id: string, r: nat) {
    Rank(id) == r && |id| > 1 && id[0] != 'z' && (id[0] != 'd' || id[1] != 'a')
  }

  lemma SysRank0(i: nat)
    requires 0 <= i < 5
    ensures FixedId(SYS[i].prefix, i)
  {
  }

  lemma SysRank1(i: nat)
    requires 5 <= i < 9
    ensures FixedId(SYS[i].prefix, i)
  {
  }

  lemma SysRank2(i: nat)
    requires 9 <= i < 13
    ensures FixedId(SYS[i].prefix, i)
  {
  }

  lemma SysRank3(i: nat)
    requires 13 <= i < 17
    ensures FixedId(SYS[i].prefix, i)
  {
  }

  lemma SysRank4(i: nat)
    requires 17 <= i < 21
    ensures FixedId(SYS[i].prefix, i)
  {
  }

  lemma SysRank5(i: nat)
    requires 21 <= i < 26
    ensures FixedId(SYS[i].prefix, i)
  {
  }

  lemma SysRank(i: nat)
    requires i < |SYS|
    ensures FixedId(SYS[i].prefix, i)
  {
    if i < 5 {
      SysRank0(i);
    } else if i < 9 {
      SysRank1(i);
    } else if i < 13 {
      SysRank2(i);
    } else if i < 17 {
      SysRank3(i);
    } else if i < 21 {
      SysRank4(i);
    } else {
      SysRank5(i);
    }
  }

  lemma HealthRank(i: nat)
    requires i < |HEALTH|
    ensures FixedId(HEALTH[i], |SYS| + i)
  {
  }

  // Two strings cut at the same place from the same end.
  lemma SameSuffix(a: string, b: string, s: string)
    requires a + s == b + s
    ensures a == b
  {
    assert |a| == |b|;
    assert (a + s)[..|a|] == a && (b + s)[..|b|] == b;
  }

  lemma SamePrefix(p: string, a: string, b: string)
    requires p + a == p + b
    ensures a == b
  {
    assert (p + a)[|p|..] == a && (p + b)[|p|..] == b;
  }

  /** Which zone suffix a string ends in, read off its last characters: none ends another. */
  function SuffixRank(x: string): int
    requires |x| >= 5
  {
    match x[|x| - 1]
    case 'p' => 0
    case 'y' => 1
    case 'e' => 4
    case 'd' => 5
    case 'g' => 7
    case _ => if x[|x| - 3] == 'e' then 6 else if |x| >= 10 && x[|x| - 10] == 'l' then 2 else 3
  }

  lemma SuffixRankOf(a: string, i: nat)
    requires i < 8
    ensures |a + ZONE[i].suffix| >= 5 && SuffixRank(a + ZONE[i].suffix) == i
  {
  }

  lemma SuffixedIdInjective(a: string, i: nat, b: string, j: nat)
    requires i < 8 && j < 8
    requires "zone_" + a + ZONE[i].suffix == "zone_" + b + ZONE[j].suffix
    ensures i == j && a == b
  {
    SuffixRankOf("zone_" + a, i);
    SuffixRankOf("zone_" + b, j);
    SameSuffix("zone_" + a, "zone_" + b, ZONE[i].suffix);
    SamePrefix("zone_", a, b);
  }

  lemma ZonePrefix(i: nat)
    requires i < |ZONE|
    ensures if i < 8 then ZONE[i].prefix == "zone_" else ZONE[i].prefix == "damper_" && ZONE[i].suffix == ""
  {
  }

  /** A zone id determines the entity and the zone name. */
  lemma ZoneIdInjective(a: string, i: nat, b: string, j: nat)
    requires i < |ZONE| && j < |ZONE|
    requires ZONE[i].prefix + a + ZONE[i].suffix == ZONE[j].prefix + b + ZONE[j].suffix
    ensures i == j && a == b
  {
    ZonePrefix(i);
    ZonePrefix(j);
    var x, y := ZONE[i].prefix + a + ZONE[i].suffix, ZONE[j].prefix + b + ZONE[j].suffix;
    assert ZONE[i].prefix[0] == ZONE[j].prefix[0] by {
      assert x[0] == ZONE[i].prefix[0] && y[0] == ZONE[j].prefix[0];
    }
    if i < 8 && j < 8 {
      SuffixedIdInjective(a, i, b, j);
    } else if i == 8 && j == 8 {
      assert x == "damper_" + a && y == "damper_" + b;
      SamePrefix("damper_", a, b);
    }
  }

  /** The zones of `zones` have pairwise distinct names, fallbacks included. */
  ghost predicate DistinctNames(cfg: Config, zones: set<int>) {
    forall y, z :: y in zones && z in zones && ZoneName(cfg, y) == ZoneName(cfg, z) ==> y == z
  }

  lemma {:induction false} DecimalInjective(m: nat, n: nat)
    requires Decimal(m) == Decimal(n)
    ensures m == n
  {
    var a, b := Decimal(m), Decimal(n);
    assert a[|a| - 1] == Digit(m % 10) && b[|b| - 1] == Digit(n % 10);
    if m >= 10 && n >= 10 {
      assert a[..|a| - 1] == Decimal(m / 10) && b[..|b| - 1] == Decimal(n / 10);
      DecimalInjective(m / 10, n / 10);
    }
  }

  lemma {:induction false} DecimalStartsWithDigit(n: nat)
    ensures Decimal(n)[0] != '-'
  {
    if n >= 10 {
      DecimalStartsWithDigit(n / 10);
    }
  }

  /** Zones that fall back are always told apart, whatever other zones are called. */
  lemma FallbackNamesDistinct(y: int, z: int)
    ensures Fallback(y) == Fallback(z) <==> y == z
  {
    if Fallback(y) == Fallback(z) {
      SamePrefix("zone_", Signed(y), Signed(z));
      if y < 0 && z < 0 {
        SamePrefix("-", Decimal(-y), Decimal(-z));
        DecimalInjective(-y, -z);
      } else if y >= 0 && z >= 0 {
        DecimalInjective(y, z);
      } else {
        DecimalStartsWithDigit(if y < 0 then z else y);
      }
    }
  }

  /**
   Names are distinct exactly if no two zones are configured alike and none is configured as
   the fallback of a zone without a name.
   */
  lemma DistinctNamesExactly(cfg: Config, zones: set<int>)
    ensures DistinctNames(cfg, zones) <==>
      && (forall y, z :: y in zones && z in zones && y != z && Configured(cfg, y) && Configured(cfg, z) ==>
            cfg.zoneNames[y - 1] != cfg.zoneNames[z - 1])
      && (forall y, z :: y in zones && z in zones && Configured(cfg, y) && !Configured(cfg, z) ==>
            cfg.zoneNames[y - 1] != Fallback(z))
  {
    forall y, z | y in zones && z in zones && !Configured(cfg, y) && !Configured(cfg, z)
      ensures ZoneName(cfg, y) == ZoneName(cfg, z) ==> y == z
    {
      FallbackNamesDistinct(y, z);
    }
  }

  /** Two zones share a topic exactly if they share a name. */
  lemma SharedTopicExactly(cfg: Config, y: int, z: int, i: nat, j: nat)
    requires i < |ZONE| && j < |ZONE|
    ensures Topic(cfg, ZoneSlot(y, i)) == Topic(cfg, ZoneSlot(z, j)) <==> i == j && ZoneName(cfg, y) == ZoneName(cfg, z)
  {
    if Topic(cfg, ZoneSlot(y, i)) == Topic(cfg, ZoneSlot(z, j)) {
      StateTopicInjective(cfg, Object(cfg, ZoneSlot(y, i)), Object(cfg, ZoneSlot(z, j)));
      ZoneIdInjective(ZoneName(cfg, y), i, ZoneName(cfg, z), j);
    }
  }

  /** A zone configured as "zone_2" shares every topic with the unnamed zone 2. */
  lemma ConfiguredFallbackCollides(base: string, i: nat)
    requires i < |ZONE|
    ensures var cfg := Config(base, ["zone_2"]);
            !DistinctNames(cfg, {1, 2}) && Topic(cfg, ZoneSlot(1, i)) == Topic(cfg, ZoneSlot(2, i))
  {
    var cfg := Config(base, ["zone_2"]);
    assert Decimal(2) == "2";
    assert ZoneName(cfg, 1) == ZoneName(cfg, 2);
  }

  predicate Covers(zones: set<int>, s: Slot) {
    IsSlot(s) && (s.ZoneSlot? ==> s.z in zones)
  }

  lemma ZoneIdStart(cfg: Config, z: int, i: nat)
    requires i < |ZONE|
    ensures var x := Object(cfg, ZoneSlot(z, i));
            |x| > 1 && (x[0] == 'z' || (x[0] == 'd' && x[1] == 'a'))
  {
  }

  /** Zones with distinct names have pairwise distinct topics, distinct from the system's. */
  lemma TopicsDistinct(cfg: Config, zones: set<int>, s: Slot, t: Slot)
    requires DistinctNames(cfg, zones) && Covers(zones, s) && Covers(zones, t)
    requires Topic(cfg, s) == Topic(cfg, t)
    ensures s == t
  {
    StateTopicInjective(cfg, Object(cfg, s), Object(cfg, t));
    match (s, t) {
      case (SysSlot(i), SysSlot(j)) =>
        SysRank(i);
        SysRank(j);
      case (SysSlot(i), ZoneSlot(z, j)) =>
        SysRank(i);
        ZoneIdStart(cfg, z, j);
      case (ZoneSlot(z, i), SysSlot(j)) =>
        SysRank(j);
        ZoneIdStart(cfg, z, i);
      case (ZoneSlot(y, i), ZoneSlot(z, j)) =>
        ZoneIdInjective(ZoneName(cfg, y), i, ZoneName(cfg, z), j);
    }
  }

  function HealthTopic(cfg: Config, i: nat): string
    requires i < |HEALTH|
  {
    StateTopic(cfg, HEALTH[i])
  }

  /** No health topic is a state topic, whatever the zones are called. */
  lemma HealthTopicsApart(cfg: Config, i: nat, s: Slot)
    requires i < |HEALTH| && IsSlot(s)
    ensures HealthTopic(cfg, i) != Topic(cfg, s)
  {
    if HealthTopic(cfg, i) == Topic(cfg, s) {
      StateTopicInjective(cfg, HEALTH[i], Object(cfg, s));
      HealthRank(i);
      match s {
        case SysSlot(j) => SysRank(j);
        case ZoneSlot(z, j) => ZoneIdStart(cfg, z, j);
      }
    }
  }

  lemma HealthTopicsDistinct(cfg: Config, i: nat, j: nat)
    requires i < |HEALTH| && j < |HEALTH| && HealthTopic(cfg, i) == HealthTopic(cfg, j)
    ensures i == j
  {
    StateTopicInjective(cfg, HEALTH[i], HEALTH[j]);
    HealthRank(i);
    HealthRank(j);
  }

  // ----- The tables, by the published contract -----

  /** The published fields of a zone. */
  lemma ZoneFields()
    ensures |ZONE| == 9
    ensures ZONE[0].field == "temp" && ZONE[1].field == "humidity" && ZONE[2].field == "cool_setpoint"
    ensures ZONE[3].field == "heat_setpoint" && ZONE[4].field == "fan_mode" && ZONE[5].field == "hold"
    ensures ZONE[6].field == "hold_permanent" && ZONE[7].field == "hold_remaining_min"
    ensures ZONE[8].field == "damper_position"
  {
  }

  lemma JoinSuffix(name: string, f: string)
    ensures "zone_" + name + ("_" + f) == "zone_" + name + "_" + f
  {
  }

  /** A zone topic is `zone_<name>_<field>`; the countdown and the damper have a name of their own. */
  lemma ZoneTopic(cfg: Config, z: int, i: nat)
    requires i < |ZONE|
    ensures var name := ZoneName(cfg, z);
            && (i < 7 ==> Topic(cfg, ZoneSlot(z, i)) == StateTopic(cfg, "zone_" + name + "_" + ZONE[i].field))
            && (i == 7 ==> Topic(cfg, ZoneSlot(z, i)) == StateTopic(cfg, "zone_" + name + "_hold_remaining"))
            && (i == 8 ==> Topic(cfg, ZoneSlot(z, i)) == StateTopic(cfg, "damper_" + name))
  {
    var name := ZoneName(cfg, z);
    if i < 7 {
      ZoneSuffix(i);
      JoinSuffix(name, ZONE[i].field);
    } else if i == 8 {
      assert "damper_" + name + "" == "damper_" + name;
    }
  }

  lemma ZoneSuffix(i: nat)
    requires i < 7
    ensures ZONE[i].prefix == "zone_" && ZONE[i].suffix == "_" + ZONE[i].field
  {
    assert "_temp" == "_" + "temp" && "_humidity" == "_" + "humidity";
    assert "_cool_setpoint" == "_" + "cool_setpoint" && "_heat_setpoint" == "_" + "heat_setpoint";
    assert "_fan_mode" == "_" + "fan_mode" && "_hold" == "_" + "hold" && "_hold_permanent" == "_" + "hold_permanent";
  }

  /** A system topic is named after its field, but for the filter's. */
  lemma SystemTopics(cfg: Config, i: nat)
    requires i < |SYS|
    ensures Topic(cfg, SysSlot(i)) ==
      cfg.baseTopic + "/" + (if SYS[i].field == "filter_life_used" then "filter_life" else SYS[i].field) + "/state"
  {
  }

  /** How each field is rendered: all but these as the plain number. */
  lemma Renderings(i: nat)
    ensures SYS[4].field == "static_pressure" && SYS[5].field == "blower_watts"
    ensures SYS[14].field == "filter_life_used" && SYS[25].field == "system_mode" && |SYS| == 26
    ensures i < |SYS| ==>
      SYS[i].rendering ==
        (if i == 4 then Round2 else if i == 5 then Round0 else if i == 14 then Inv100
         else if i == 25 then AsText else Trimmed)
    ensures i < |ZONE| ==>
      ZONE[i].rendering == (if i == 4 then AsText else if i == 7 then Round0 else if i == 8 then Pct15 else Trimmed)
  {
  }
}
