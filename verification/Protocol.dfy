/**
 The zone-scoped register decoders of protocol/zone.go and protocol/sam.go, and the
 dispatch of protocol/protocol.go that routes frames to them.
 */
module Protocol {
  import opened Basics
  import opened Frames
  import opened Readings
  import Bytes

  const DAMPER_CONTROL: bv16 := 0x6001

  // Registers, as the first three data bytes.
  const DAMPER_CMD: seq<Byte> := [0x00, 0x03, 0x08]
  const DAMPER_POSITION: seq<Byte> := [0x00, 0x03, 0x19]
  const ZONE_PUSH: seq<Byte> := [0x00, 0x04, 0x1f]
  const ZONE_STATUS: seq<Byte> := [0x00, 0x04, 0x1e]
  const SAM_STATE: seq<Byte> := [0x00, 0x3b, 0x02]
  const SAM_ZONES: seq<Byte> := [0x00, 0x3b, 0x03]

  /** Big-endian `u16(p, i)`. */
  function U16(p: seq<Byte>, i: nat): nat
    requires i + 1 < |p|
  {
    Bytes.ToInt(p[i]) * 256 + Bytes.ToInt(p[i + 1])
  }

  function Num(b: Byte): real { Bytes.ToInt(b) as real }

  /** `zones & (1 << (z-1)) != 0`. */
  predicate ZoneBit(zones: Byte, z: nat)
    requires 1 <= z <= 8
  {
    (zones >> (z - 1)) & 1 == 1
  }

  /** `zoneIndex`: 1-8 for a zone sensor's address, otherwise 0. */
  function ZoneIndex(addr: bv16): (z: nat)
    ensures z <= 8
  {
    var hi := Bytes.ToInt(Hi(addr));
    if 0x21 <= hi <= 0x28 && Lo(addr) == 0x01 then hi - 0x20 else 0
  }

  function FanText(v: Byte): string {
    match Bytes.ToInt(v)
    case 0 => "auto"
    case 1 => "low"
    case 2 => "med"
    case 3 => "high"
    case _ => "unknown"
  }

  /** A timed hold is marked by 0x18 in byte 1 of a zone push. */
  predicate TimedHold(p: seq<Byte>)
    requires |p| >= 8
  {
    p[1] == 0x18
  }

  /** Minutes left of a timed hold: 2-second ticks in bytes 3-4. */
  function HoldMinutes(p: seq<Byte>): real
    requires |p| >= 8
  {
    U16(p, 3) as real / 30.0
  }

  // Decoders leave the timestamp zero; `Decode` stamps it.

  /** `zoneConfigPush`. */
  function ZoneConfigPush(zone: int, p: seq<Byte>): seq<Reading> {
    if zone == 0 || |p| < 8 then []
    else
      [ Reading(zone, "hold", if TimedHold(p) then 1.0 else 0.0, "", 0),
        Reading(zone, "fan_mode", Num(p[5]), FanText(p[5]), 0),
        Reading(zone, "heat_setpoint", Num(p[6]), "", 0),
        Reading(zone, "cool_setpoint", Num(p[7]), "", 0) ] +
      (if TimedHold(p) then [Reading(zone, "hold_remaining_min", HoldMinutes(p), "", 0)] else [])
  }

  /** `zoneSensorStatus`. */
  function ZoneSensorStatus(zone: int, p: seq<Byte>): seq<Reading> {
    if zone == 0 || |p| < 13 then []
    else
      [ Reading(zone, "temp", U16(p, 9) as real / 16.0, "", 0),
        Reading(zone, "humidity", Num(p[12]), "", 0) ]
  }

  /** `dampers`, up to slot `n`. */
  function Dampers(field: string, p: seq<Byte>, n: nat): seq<Reading>
    requires n <= |p|
  {
    if n == 0 then []
    else
      Dampers(field, p, n - 1) +
      (if p[n - 1] == 0xff then [] else [Reading(n, field, Num(p[n - 1]), "", 0)])
  }

  /** What `systemState3B02` reads for one zone. */
  function StateZone(p: seq<Byte>, z: nat): seq<Reading>
    requires |p| >= 29 && 1 <= z <= 8
  {
    if !ZoneBit(p[0], z) then []
    else [Reading(z, "temp_sam", Num(p[3 + z - 1]), "", 0), Reading(z, "humidity_sam", Num(p[11 + z - 1]), "", 0)]
  }

  /** The zone readings of `systemState3B02`, up to zone `n`. */
  function StateZones(p: seq<Byte>, n: nat): seq<Reading>
    requires |p| >= 29 && n <= 8
  {
    if n == 0 then [] else StateZones(p, n - 1) + StateZone(p, n)
  }

  function SignedNum(b: Byte): real {
    if Bytes.ToInt(b) < 128 then Num(b) else Num(b) - 256.0
  }

  function ModeText(mode: Byte): string {
    match Bytes.ToInt(mode)
    case 0 => "heat"
    case 1 => "cool"
    case 2 => "auto"
    case _ => "unknown"
  }

  /** `systemState3B02`. */
  function SystemState(p: seq<Byte>): seq<Reading> {
    if |p| < 29 then []
    else
      [Reading(0, "active_zones", Num(p[0]), "", 0), Reading(0, "metric_units", Num(p[1]), "", 0)] +
      StateZones(p, 8) +
      [ Reading(0, "outdoor_temp_sam", SignedNum(p[20]), "", 0),
        Reading(0, "active_stages", Num(p[22] >> 4), "", 0),
        Reading(0, "system_mode", Num(p[22] & 0x0f), ModeText(p[22] & 0x0f), 0) ]
  }

  /** What `zoneSettings3B03` reads for one zone. */
  function ZoneSetting(p: seq<Byte>, z: nat): seq<Reading>
    requires |p| >= 150 && 1 <= z <= 8
  {
    if !ZoneBit(p[0], z) then []
    else
      [ Reading(z, "fan_mode_sam", Num(p[3 + z - 1]), FanText(p[3 + z - 1]), 0),
        Reading(z, "hold_permanent", if ZoneBit(p[11], z) then 1.0 else 0.0, "", 0),
        Reading(z, "heat_setpoint_sam", Num(p[12 + z - 1]), "", 0),
        Reading(z, "cool_setpoint_sam", Num(p[20 + z - 1]), "", 0) ] +
      (if U16(p, 38 + 2 * (z - 1)) == 0xffff then []
       else [Reading(z, "hold_remaining_min_sam", U16(p, 38 + 2 * (z - 1)) as real, "", 0)])
  }

  /** `zoneSettings3B03`, up to zone `n`. */
  function ZoneSettings(p: seq<Byte>, n: nat): seq<Reading>
    requires |p| >= 150 && n <= 8
  {
    if n == 0 then [] else ZoneSettings(p, n - 1) + ZoneSetting(p, n)
  }

  function DamperReadings(field: string, p: seq<Byte>): seq<Reading> {
    if |p| < 8 then [] else Dampers(field, p, 8)
  }

  /** A reading of a register that is not zone-scoped. */
  datatype SystemReading = SystemReading(field: string, value: real, text: string)

  /** The decoders of those registers, taken as given. */
  type SystemDecoder = Frame -> Option<seq<SystemReading>>

  function Unscoped(rs: seq<SystemReading>): seq<Reading> {
    seq(|rs|, i requires 0 <= i < |rs| => Reading(0, rs[i].field, rs[i].value, rs[i].text, 0))
  }

  /** Where and when a reading was made. */
  datatype Origin = Origin(owner: bv16, reg: seq<Byte>, ts: int)

  function StampedOne(r: Reading, o: Origin): Reading {
    r.(ts := o.ts, owner := o.owner, reg := o.reg)
  }

  function Stamped(rs: seq<Reading>, o: Origin): seq<Reading> {
    seq(|rs|, i requires 0 <= i < |rs| => StampedOne(rs[i], o))
  }

  /** The owner of the register a frame carries: who answers for it, or who is written to. */
  function Owner(f: Frame): bv16 {
    if f.op == OP_ACK then f.src else f.dst
  }

  function OriginOf(f: Frame, ts: int): Origin
    requires |f.data| >= 4
  {
    Origin(Owner(f), f.data[..3], ts)
  }

  /** A frame carrying register `reg`. */
  predicate Carries(f: Frame, reg: seq<Byte>) {
    |f.data| >= 4 && f.data[..3] == reg
  }

  /** The switch of `Decode`: what the matching decoder finds, or None where none matches. */
  function Dispatch(f: Frame, others: SystemDecoder): (rs: Option<seq<Reading>>)
    ensures rs.Some? ==> |f.data| >= 4
  {
    if (f.op != OP_ACK && f.op != OP_WRITE) || |f.data| < 4 then None
    else
      var owner, p := Owner(f), f.data[3..];
      if Carries(f, DAMPER_CMD) then
        if owner == DAMPER_CONTROL && f.op == OP_WRITE then Some(DamperReadings("damper_cmd", p)) else None
      else if Carries(f, DAMPER_POSITION) then
        if owner == DAMPER_CONTROL && f.op == OP_ACK then Some(DamperReadings("damper_position", p)) else None
      else if Carries(f, ZONE_PUSH) then
        if f.op == OP_WRITE && ZoneIndex(f.dst) != 0 then Some(ZoneConfigPush(ZoneIndex(f.dst), p)) else None
      else if Carries(f, ZONE_STATUS) then
        if f.op == OP_ACK && ZoneIndex(owner) != 0 then Some(ZoneSensorStatus(ZoneIndex(owner), p)) else None
      else if Carries(f, SAM_STATE) then
        if owner == WALL_CONTROL && f.op == OP_ACK then Some(SystemState(p)) else None
      else if Carries(f, SAM_ZONES) then
        if owner == WALL_CONTROL && f.op == OP_ACK then Some(if |p| < 150 then [] else ZoneSettings(p, 8)) else None
      else
        match others(f)
        case None => None
        case Some(rs) => Some(Unscoped(rs))
  }

  /** The readings the read loop applies for a frame that arrived at `ts`. */
  function ReadingsOf(f: Frame, ts: int, others: SystemDecoder): seq<Reading> {
    match Dispatch(f, others)
    case Some(rs) => Stamped(rs, OriginOf(f, ts))
    case None => []
  }

  // ----- Implementation -----

  method DecodeDampers(field: string, p: seq<Byte>) returns (rs: seq<Reading>)
    ensures rs == DamperReadings(field, p)
  {
    rs := [];
    if |p| < 8 {
      return;
    }
    for i := 0 to 8
      invariant rs == Dampers(field, p, i)
    {
      if p[i] == 0xff {
        continue;
      }
      rs := rs + [Reading(i + 1, field, Num(p[i]), "", 0)];
    }
  }

  method DecodePush(zone: int, p: seq<Byte>) returns (rs: seq<Reading>)
    ensures rs == ZoneConfigPush(zone, p)
  {
    if zone == 0 || |p| < 8 {
      return [];
    }
    var hold := 0.0;
    if p[1] == 0x18 {
      hold := 1.0;
    }
    rs := [ Reading(zone, "hold", hold, "", 0),
            Reading(zone, "fan_mode", Num(p[5]), FanText(p[5]), 0),
            Reading(zone, "heat_setpoint", Num(p[6]), "", 0),
            Reading(zone, "cool_setpoint", Num(p[7]), "", 0) ];
    if p[1] == 0x18 {
      rs := rs + [Reading(zone, "hold_remaining_min", U16(p, 3) as real / 30.0, "", 0)];
    }
  }

  method DecodeState(p: seq<Byte>) returns (rs: seq<Reading>)
    ensures rs == SystemState(p)
  {
    if |p| < 29 {
      return [];
    }
    rs := [Reading(0, "active_zones", Num(p[0]), "", 0), Reading(0, "metric_units", Num(p[1]), "", 0)];
    ghost var head := rs;
    for z := 1 to 9
      invariant rs == head + StateZones(p, z - 1)
    {
      if !ZoneBit(p[0], z) {
        continue;
      }
      var both := [ Reading(z, "temp_sam", Num(p[3 + z - 1]), "", 0),
                    Reading(z, "humidity_sam", Num(p[11 + z - 1]), "", 0) ];
      ConcatAssociative(head, StateZones(p, z - 1), both);
      rs := rs + both;
    }
    var mode := p[22] & 0x0f;
    rs := rs + [ Reading(0, "outdoor_temp_sam", SignedNum(p[20]), "", 0),
                 Reading(0, "active_stages", Num(p[22] >> 4), "", 0),
                 Reading(0, "system_mode", Num(mode), ModeText(mode), 0) ];
  }

  /** The body of the loop of `zoneSettings3B03`, for a zone of the mask. */
  method DecodeSetting(p: seq<Byte>, z: nat) returns (rs: seq<Reading>)
    requires |p| >= 150 && 1 <= z <= 8 && ZoneBit(p[0], z)
    ensures rs == ZoneSetting(p, z)
  {
    var permanent := 0.0;
    if ZoneBit(p[11], z) {
      permanent := 1.0;
    }
    rs := [ Reading(z, "fan_mode_sam", Num(p[3 + z - 1]), FanText(p[3 + z - 1]), 0),
            Reading(z, "hold_permanent", permanent, "", 0),
            Reading(z, "heat_setpoint_sam", Num(p[12 + z - 1]), "", 0),
            Reading(z, "cool_setpoint_sam", Num(p[20 + z - 1]), "", 0) ];
    var mins := U16(p, 38 + 2 * (z - 1));
    if mins != 0xffff {
      rs := rs + [Reading(z, "hold_remaining_min_sam", mins as real, "", 0)];
    }
  }

  method DecodeSettings(p: seq<Byte>) returns (rs: seq<Reading>)
    ensures rs == if |p| < 150 then [] else ZoneSettings(p, 8)
  {
    rs := [];
    if |p| < 150 {
      return;
    }
    for z := 1 to 9
      invariant rs == ZoneSettings(p, z - 1)
    {
      if !ZoneBit(p[0], z) {
        assert rs + [] == rs;
        continue;
      }
      var more := DecodeSetting(p, z);
      rs := rs + more;
    }
  }

  /** The stamping loop of `Decode`. */
  method Stamp(unstamped: seq<Reading>, o: Origin) returns (rs: seq<Reading>)
    ensures rs == Stamped(unstamped, o)
  {
    rs := unstamped;
    for i := 0 to |rs|
      invariant |rs| == |unstamped|
      invariant forall k :: 0 <= k < |rs| ==> rs[k] == if k < i then StampedOne(unstamped[k], o) else unstamped[k]
    {
      rs := rs[i := rs[i].(owner := o.owner)];
      rs := rs[i := rs[i].(reg := o.reg)];
      rs := rs[i := rs[i].(ts := o.ts)];
    }
  }

  /** `Decode`. */
  method DecodeFrame(f: Frame, ts: int, others: SystemDecoder) returns (rs: seq<Reading>, ok: bool)
    ensures ok <==> Dispatch(f, others).Some?
    ensures rs == ReadingsOf(f, ts, others)
  {
    rs, ok := [], false;
    var owner;
    if f.op == OP_ACK {
      owner := f.src;
    } else if f.op == OP_WRITE {
      owner := f.dst;
    } else {
      return;
    }
    if |f.data| < 4 {
      return;
    }
    var reg, p := f.data[..3], f.data[3..];
    if reg == DAMPER_CMD {
      if owner == DAMPER_CONTROL && f.op == OP_WRITE {
        rs := DecodeDampers("damper_cmd", p);
        ok := true;
      }
    } else if reg == DAMPER_POSITION {
      if owner == DAMPER_CONTROL && f.op == OP_ACK {
        rs := DecodeDampers("damper_position", p);
        ok := true;
      }
    } else if reg == ZONE_PUSH {
      if f.op == OP_WRITE && ZoneIndex(f.dst) != 0 {
        rs := DecodePush(ZoneIndex(f.dst), p);
        ok := true;
      }
    } else if reg == ZONE_STATUS {
      if f.op == OP_ACK && ZoneIndex(owner) != 0 {
        rs, ok := ZoneSensorStatus(ZoneIndex(owner), p), true;
      }
    } else if reg == SAM_STATE {
      if owner == WALL_CONTROL && f.op == OP_ACK {
        rs := DecodeState(p);
        ok := true;
      }
    } else if reg == SAM_ZONES {
      if owner == WALL_CONTROL && f.op == OP_ACK {
        rs := DecodeSettings(p);
        ok := true;
      }
    } else {
      match others(f) {
        case None =>
        case Some(found) => rs, ok := Unscoped(found), true;
      }
    }
    if !ok {
      return;
    }
    rs := Stamp(rs, Origin(owner, reg, ts));
  }

  // ----- What the decoders read, slot by slot -----

  /** A reading as a decoder leaves it, before it is stamped. */
  predicate Reads(r: Reading, z: int, field: string, value: real, text: string) {
    r == Reading(z, field, value, text, 0)
  }

  /** `dampers` reads exactly the slots that are not 0xff. */
  lemma {:induction false} DampersExactly(field: string, p: seq<Byte>, n: nat, r: Reading)
    requires n <= |p|
    ensures r in Dampers(field, p, n) <==>
      1 <= r.zone <= n && p[r.zone - 1] != 0xff && Reads(r, r.zone, field, Num(p[r.zone - 1]), "")
  {
    if n > 0 {
      DampersExactly(field, p, n - 1, r);
    }
  }

  /** A zone reading of the SAM state: temperature from byte 3 on, humidity from byte 11 on. */
  predicate IsZoneState(p: seq<Byte>, r: Reading)
    requires |p| >= 29
  {
    && 1 <= r.zone <= 8 && ZoneBit(p[0], r.zone)
    && (Reads(r, r.zone, "temp_sam", Num(p[2 + r.zone]), "")
        || Reads(r, r.zone, "humidity_sam", Num(p[10 + r.zone]), ""))
  }

  lemma StateZoneExactly(p: seq<Byte>, z: nat, r: Reading)
    requires |p| >= 29 && 1 <= z <= 8
    ensures r in StateZone(p, z) <==> IsZoneState(p, r) && r.zone == z
  {
  }

  /** The SAM state reads exactly those, for the zones of its mask. */
  lemma {:induction false} StateZonesExactly(p: seq<Byte>, n: nat, r: Reading)
    requires |p| >= 29 && n <= 8
    ensures r in StateZones(p, n) <==> IsZoneState(p, r) && r.zone <= n
  {
    if n > 0 {
      StateZonesExactly(p, n - 1, r);
      StateZoneExactly(p, n, r);
      InConcat(StateZones(p, n - 1), StateZone(p, n), r);
    }
  }

  /** A reading of the SAM zone settings; a duration of 0xffff is not read. */
  predicate IsZoneSetting(p: seq<Byte>, r: Reading)
    requires |p| >= 150
  {
    && 1 <= r.zone <= 8 && ZoneBit(p[0], r.zone)
    && var z, mins := r.zone, U16(p, 36 + 2 * r.zone);
       || Reads(r, z, "fan_mode_sam", Num(p[2 + z]), FanText(p[2 + z]))
       || Reads(r, z, "hold_permanent", if ZoneBit(p[11], z) then 1.0 else 0.0, "")
       || Reads(r, z, "heat_setpoint_sam", Num(p[11 + z]), "")
       || Reads(r, z, "cool_setpoint_sam", Num(p[19 + z]), "")
       || (mins != 0xffff && Reads(r, z, "hold_remaining_min_sam", mins as real, ""))
  }

  lemma ZoneSettingExactly(p: seq<Byte>, z: nat, r: Reading)
    requires |p| >= 150 && 1 <= z <= 8
    ensures r in ZoneSetting(p, z) <==> IsZoneSetting(p, r) && r.zone == z
  {
  }

  /** The SAM zone settings read exactly those, for the zones of their mask. */
  lemma {:induction false} ZoneSettingsExactly(p: seq<Byte>, n: nat, r: Reading)
    requires |p| >= 150 && n <= 8
    ensures r in ZoneSettings(p, n) <==> IsZoneSetting(p, r) && r.zone <= n
  {
    if n > 0 {
      ZoneSettingsExactly(p, n - 1, r);
      ZoneSettingExactly(p, n, r);
      InConcat(ZoneSettings(p, n - 1), ZoneSetting(p, n), r);
    }
  }

  /** A zone push reads as its hold, fan mode and setpoints, and the countdown of a timed hold. */
  lemma PushExactly(z: int, p: seq<Byte>, r: Reading)
    requires z != 0 && |p| >= 8
    ensures r in ZoneConfigPush(z, p) <==>
      || Reads(r, z, "hold", if p[1] == 0x18 then 1.0 else 0.0, "")
      || Reads(r, z, "fan_mode", Num(p[5]), FanText(p[5]))
      || Reads(r, z, "heat_setpoint", Num(p[6]), "")
      || Reads(r, z, "cool_setpoint", Num(p[7]), "")
      || (p[1] == 0x18 && Reads(r, z, "hold_remaining_min", U16(p, 3) as real / 30.0, ""))
  {
  }

  /** A zone sensor's status reads as its temperature in sixteenths and its humidity. */
  lemma StatusExactly(z: int, p: seq<Byte>, r: Reading)
    requires z != 0 && |p| >= 13
    ensures r in ZoneSensorStatus(z, p) <==>
      Reads(r, z, "temp", U16(p, 9) as real / 16.0, "") || Reads(r, z, "humidity", Num(p[12]), "")
  {
  }

  /** What the SAM state reads of the system. */
  predicate IsSystemState(p: seq<Byte>, r: Reading)
    requires |p| >= 29
  {
    || Reads(r, 0, "active_zones", Num(p[0]), "") || Reads(r, 0, "metric_units", Num(p[1]), "")
    || Reads(r, 0, "outdoor_temp_sam", SignedNum(p[20]), "")
    || Reads(r, 0, "active_stages", Num(p[22] >> 4), "")
    || Reads(r, 0, "system_mode", Num(p[22] & 0x0f), ModeText(p[22] & 0x0f))
  }

  lemma SystemStateExactly(p: seq<Byte>, r: Reading)
    requires |p| >= 29
    ensures r in SystemState(p) <==> IsSystemState(p, r) || IsZoneState(p, r)
  {
    var head := [Reading(0, "active_zones", Num(p[0]), "", 0), Reading(0, "metric_units", Num(p[1]), "", 0)];
    var tail := [ Reading(0, "outdoor_temp_sam", SignedNum(p[20]), "", 0),
                  Reading(0, "active_stages", Num(p[22] >> 4), "", 0),
                  Reading(0, "system_mode", Num(p[22] & 0x0f), ModeText(p[22] & 0x0f), 0) ];
    StateZonesExactly(p, 8, r);
    InConcat(head, StateZones(p, 8), r);
    InConcat(head + StateZones(p, 8), tail, r);
    assert SystemState(p) == head + StateZones(p, 8) + tail;
  }

  /** The stage and the mode are the two digits of their byte, and the temperature is a signed byte. */
  lemma DigitsOfByte(b: Byte)
    ensures Num(b) == 16.0 * Num(b >> 4) + Num(b & 0x0f)
    ensures Num(b >> 4) < 16.0 && Num(b & 0x0f) < 16.0
    ensures -128.0 <= SignedNum(b) < 128.0 && (SignedNum(b) == Num(b) || SignedNum(b) == Num(b) - 256.0)
  {
    Bytes.ToIntIsBinary(b);
    Bytes.ToIntIsBinary(b >> 4);
    Bytes.ToIntIsBinary(b & 0x0f);
    BinaryDigits(b);
    Bytes.ToIntBound(b);
  }

  lemma BinaryDigits(b: Byte)
    ensures Bytes.Binary(b) == 16 * Bytes.Binary(b >> 4) + Bytes.Binary(b & 0x0f)
    ensures Bytes.Binary(b >> 4) < 16 && Bytes.Binary(b & 0x0f) < 16
  {
    assert (b >> 4) & 1 == (b & 16) >> 4 && (b >> 4) & 2 == (b & 32) >> 4;
    assert (b >> 4) & 4 == (b & 64) >> 4 && (b >> 4) & 8 == (b & 128) >> 4;
    assert (b >> 4) & 16 == 0 && (b >> 4) & 32 == 0 && (b >> 4) & 64 == 0 && (b >> 4) & 128 == 0;
  }

  lemma SmallNumbers()
    ensures Bytes.ToInt(0) == 0 && Bytes.ToInt(1) == 1 && Bytes.ToInt(2) == 2 && Bytes.ToInt(3) == 3
  {
    assert Bytes.ToInt(1) == 1 + Bytes.ToInt(0);
    assert Bytes.ToInt(2) == 1 + Bytes.ToInt(1);
    assert Bytes.ToInt(3) == 1 + Bytes.ToInt(2);
  }

  /** The texts of the fan and system modes. */
  lemma TextsExactly(b: Byte)
    ensures FanText(0) == "auto" && FanText(1) == "low" && FanText(2) == "med" && FanText(3) == "high"
    ensures b > 3 ==> FanText(b) == "unknown"
    ensures ModeText(0) == "heat" && ModeText(1) == "cool" && ModeText(2) == "auto"
    ensures b > 2 ==> ModeText(b) == "unknown"
  {
    SmallNumbers();
    forall c: Byte | c <= 3 && Bytes.ToInt(b) == Bytes.ToInt(c) ensures b == c {
      Bytes.FromToInt(b);
      Bytes.FromToInt(c);
    }
  }

  /** Every reading of a frame is stamped with its owner, its register and its time. */
  lemma StampsAll(f: Frame, ts: int, others: SystemDecoder, i: nat)
    requires i < |ReadingsOf(f, ts, others)|
    ensures var r := ReadingsOf(f, ts, others)[i];
            && r.ts == ts && |f.data| >= 4 && r.reg == [f.data[0], f.data[1], f.data[2]]
            && (f.op == 0x06 ==> r.owner == f.src) && (f.op == 0x0c ==> r.owner == f.dst)
  {
    assert f.data[..3] == [f.data[0], f.data[1], f.data[2]];
  }

  /** The frame carries register `a b c` and at least one byte of payload. */
  predicate HasRegister(f: Frame, a: Byte, b: Byte, c: Byte) {
    |f.data| >= 4 && f.data[0] == a && f.data[1] == b && f.data[2] == c
  }

  lemma CarriesExactly(f: Frame, reg: seq<Byte>)
    requires |reg| == 3
    ensures Carries(f, reg) <==> HasRegister(f, reg[0], reg[1], reg[2])
  {
    if |f.data| >= 4 {
      assert f.data[..3] == [f.data[0], f.data[1], f.data[2]] && reg == [reg[0], reg[1], reg[2]];
    }
  }

  /** Where the readings of a zone-scoped register come from: who sends it, and how. */
  lemma RoutedExactly(f: Frame, others: SystemDecoder)
    ensures HasRegister(f, 0x00, 0x03, 0x08) ==>
      (Dispatch(f, others).Some? <==> f.op == 0x0c && f.dst == 0x6001)
    ensures HasRegister(f, 0x00, 0x03, 0x19) ==>
      (Dispatch(f, others).Some? <==> f.op == 0x06 && f.src == 0x6001)
    ensures HasRegister(f, 0x00, 0x04, 0x1f) ==>
      (Dispatch(f, others).Some? <==> f.op == 0x0c && ZoneIndex(f.dst) != 0)
    ensures HasRegister(f, 0x00, 0x04, 0x1e) ==>
      (Dispatch(f, others).Some? <==> f.op == 0x06 && ZoneIndex(f.src) != 0)
    ensures HasRegister(f, 0x00, 0x3b, 0x02) || HasRegister(f, 0x00, 0x3b, 0x03) ==>
      (Dispatch(f, others).Some? <==> f.op == 0x06 && f.src == 0x2001)
    ensures Dispatch(f, others).Some? ==> |f.data| >= 4 && (f.op == 0x06 || f.op == 0x0c)
  {
    CarriesExactly(f, DAMPER_CMD);
    CarriesExactly(f, DAMPER_POSITION);
    CarriesExactly(f, ZONE_PUSH);
    CarriesExactly(f, ZONE_STATUS);
    CarriesExactly(f, SAM_STATE);
    CarriesExactly(f, SAM_ZONES);
  }

  /** What those frames read as. */
  lemma ReadExactly(f: Frame, others: SystemDecoder)
    requires Dispatch(f, others).Some?
    ensures var rs, p := Dispatch(f, others).value, f.data[3..];
            && (HasRegister(f, 0x00, 0x03, 0x08) ==> rs == DamperReadings("damper_cmd", p))
            && (HasRegister(f, 0x00, 0x03, 0x19) ==> rs == DamperReadings("damper_position", p))
            && (HasRegister(f, 0x00, 0x04, 0x1f) ==> rs == ZoneConfigPush(ZoneIndex(f.dst), p))
            && (HasRegister(f, 0x00, 0x04, 0x1e) ==> rs == ZoneSensorStatus(ZoneIndex(f.src), p))
            && (HasRegister(f, 0x00, 0x3b, 0x02) ==> rs == SystemState(p))
            && (HasRegister(f, 0x00, 0x3b, 0x03) && |p| >= 150 ==> rs == ZoneSettings(p, 8))
  {
    CarriesExactly(f, DAMPER_CMD);
    CarriesExactly(f, DAMPER_POSITION);
    CarriesExactly(f, ZONE_PUSH);
    CarriesExactly(f, ZONE_STATUS);
    CarriesExactly(f, SAM_STATE);
    CarriesExactly(f, SAM_ZONES);
  }

  /** The zone of a sensor: 0x2101 for the first up to 0x2801 for the eighth, and no other address. */
  lemma SensorsExactly(addr: bv16)
    ensures ZoneIndex(0x2101) == 1 && ZoneIndex(0x2201) == 2 && ZoneIndex(0x2801) == 8
    ensures ZoneIndex(addr) != 0 <==> 0x21 <= Hi(addr) <= 0x28 && Lo(addr) == 0x01
  {
    Bytes.ToIntIsBinary(0x20);
    Bytes.ToIntIsBinary(0x21);
    Bytes.ToIntIsBinary(0x22);
    Bytes.ToIntIsBinary(0x28);
    Bytes.ToIntIsBinary(Hi(addr));
    BinaryOrder(Hi(addr), 0x21);
    BinaryOrder(0x28, Hi(addr));
  }

  lemma BinaryOrder(a: Byte, b: Byte)
    ensures Bytes.Binary(a) >= Bytes.Binary(b) <==> a >= b
  {
  }

  /** No reading of a frame overwrites another: no two are of the same field of the same zone. */
  ghost predicate Separate(rs: seq<Reading>) {
    forall i, j :: 0 <= i < j < |rs| ==> rs[i].zone != rs[j].zone || rs[i].field != rs[j].field
  }

  ghost predicate ZonesUpTo(rs: seq<Reading>, n: nat) {
    forall i :: 0 <= i < |rs| ==> rs[i].zone <= n
  }

  lemma SeparateAppend(rs: seq<Reading>, more: seq<Reading>, n: nat)
    requires Separate(rs) && ZonesUpTo(rs, n) && Separate(more) && forall i :: 0 <= i < |more| ==> more[i].zone == n + 1
    ensures Separate(rs + more) && ZonesUpTo(rs + more, n + 1)
  {
  }

  lemma {:induction false} ZoneSettingsSeparate(p: seq<Byte>, n: nat)
    requires |p| >= 150 && n <= 8
    ensures Separate(ZoneSettings(p, n)) && ZonesUpTo(ZoneSettings(p, n), n)
  {
    if n > 0 {
      ZoneSettingsSeparate(p, n - 1);
      SeparateAppend(ZoneSettings(p, n - 1), ZoneSetting(p, n), n - 1);
    }
  }

  lemma {:induction false} StateZonesSeparate(p: seq<Byte>, n: nat)
    requires |p| >= 29 && n <= 8
    ensures Separate(StateZones(p, n)) && ZonesUpTo(StateZones(p, n), n)
  {
    if n > 0 {
      StateZonesSeparate(p, n - 1);
      SeparateAppend(StateZones(p, n - 1), StateZone(p, n), n - 1);
    }
  }

  // ----- Which fields the decoders emit -----

  /** The frame pushes a configuration to zone `z`. */
  predicate IsPush(f: Frame, z: int) {
    f.op == OP_WRITE && Carries(f, ZONE_PUSH) && |f.data| >= 11 && ZoneIndex(f.dst) == z && z != 0
  }

  /** The two fields a push alone may set. */
  predicate IsHoldField(field: string) {
    field == "hold" || field == "hold_remaining_min"
  }

  /** None of the readings sets a hold field of a zone. */
  ghost predicate NoHolds(rs: seq<Reading>) {
    forall i :: 0 <= i < |rs| ==> rs[i].zone != 0 ==> !IsHoldField(rs[i].field)
  }

  lemma {:induction false} DampersHaveNoHolds(field: string, p: seq<Byte>, n: nat)
    requires n <= |p| && !IsHoldField(field)
    ensures NoHolds(Dampers(field, p, n))
  {
    if n > 0 {
      DampersHaveNoHolds(field, p, n - 1);
    }
  }

  lemma {:induction false} StateZonesHaveNoHolds(p: seq<Byte>, n: nat)
    requires |p| >= 29 && n <= 8
    ensures NoHolds(StateZones(p, n))
  {
    if n > 0 {
      StateZonesHaveNoHolds(p, n - 1);
    }
  }

  lemma {:induction false} ZoneSettingsHaveNoHolds(p: seq<Byte>, n: nat)
    requires |p| >= 150 && n <= 8
    ensures NoHolds(ZoneSettings(p, n))
  {
    if n > 0 {
      ZoneSettingsHaveNoHolds(p, n - 1);
    }
  }

  lemma StateHasNoHolds(p: seq<Byte>)
    ensures NoHolds(SystemState(p))
  {
    if |p| >= 29 {
      StateZonesHaveNoHolds(p, 8);
    }
  }

  lemma DispatchHasNoHolds(f: Frame, others: SystemDecoder)
    requires (forall z :: !IsPush(f, z)) && Dispatch(f, others).Some?
    ensures NoHolds(Dispatch(f, others).value)
  {
    var p := f.data[3..];
    if Carries(f, DAMPER_CMD) || Carries(f, DAMPER_POSITION) {
      if |p| >= 8 {
        DampersHaveNoHolds("damper_cmd", p, 8);
        DampersHaveNoHolds("damper_position", p, 8);
      }
    } else if Carries(f, ZONE_PUSH) {
      assert !IsPush(f, ZoneIndex(f.dst));
    } else if Carries(f, SAM_STATE) {
      StateHasNoHolds(p);
    } else if Carries(f, SAM_ZONES) && |p| >= 150 {
      ZoneSettingsHaveNoHolds(p, 8);
    }
  }

  /** No frame but a push sets a hold field: no SAM frame in particular. */
  lemma OnlyPushesHold(f: Frame, ts: int, others: SystemDecoder)
    requires forall z :: !IsPush(f, z)
    ensures NoHolds(ReadingsOf(f, ts, others))
  {
    if Dispatch(f, others).Some? {
      DispatchHasNoHolds(f, others);
    }
  }
}
