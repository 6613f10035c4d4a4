/**
 The state assembler of state/state.go: zone presence from three sources, an out-of-order
 guard and a cross-field delete, proved equal to definitions over the whole reading stream.
 */
module Assembler {
  import opened Basics
  import opened Readings
  import opened Snapshots

  const MAX_ZONES := 8

  /** The assembled state, as a value. */
  datatype World = World(sys: map<string, Field>, zones: map<int, map<string, Field>>, maskOnly: set<int>)

  const NEW_WORLD := World(map[], map[1 := map[]], {})

  // ----- Specification -----

  /** Go's `int(v)` of a float: towards zero. */
  function Truncate(v: real): int {
    if v >= 0.0 then v.Floor else -((-v).Floor)
  }

  /** Bit `k` of a two's complement integer. */
  predicate Bit(mask: int, k: nat)
    decreases k
  {
    if k == 0 then mask % 2 == 1 else Bit(mask / 2, k - 1)
  }

  predicate InMask(mask: int, z: int) {
    1 <= z <= MAX_ZONES && Bit(mask, z - 1)
  }

  predicate IsDamper(field: string) {
    field == "damper_position" || field == "damper_cmd"
  }

  function ToField(r: Reading): Field {
    Field(r.value, r.text, r.ts, false)
  }

  /** One zone's turn in `applyActiveZonesMask`. */
  function MaskStep(w: World, mask: int, z: int): World {
    if InMask(mask, z) then
      if z !in w.zones then w.(zones := w.zones[z := map[]], maskOnly := w.maskOnly + {z}) else w
    else if z != 1 && z in w.maskOnly then w.(zones := w.zones - {z}, maskOnly := w.maskOnly - {z})
    else w
  }

  /** `applyActiveZonesMask` up to and including zone `n`. */
  function ApplyMask(w: World, mask: int, n: nat): World {
    if n == 0 then w else MaskStep(ApplyMask(w, mask, n - 1), mask, n)
  }

  /** The reading is older than what the field already holds. */
  predicate Outdated(fields: map<string, Field>, r: Reading) {
    r.field in fields && r.ts < fields[r.field].ts
  }

  function ApplySystem(w: World, r: Reading): World {
    if Outdated(w.sys, r) then w
    else
      var m := if r.field == "active_zones" then ApplyMask(w, Truncate(r.value), MAX_ZONES) else w;
      m.(sys := m.sys[r.field := ToField(r)])
  }

  /** A zone's fields after an accepted reading: `hold` falling to 0 ends the countdown. */
  function SetField(fields: map<string, Field>, r: Reading): map<string, Field> {
    var set' := fields[r.field := ToField(r)];
    if r.field == "hold" && r.value == 0.0 then set' - {"hold_remaining_min"} else set'
  }

  function ApplyZone(w: World, r: Reading): World {
    if r.zone !in w.zones && IsDamper(r.field) then w
    else
      var fields := if r.zone in w.zones then w.zones[r.zone] else map[];
      if Outdated(fields, r) then w
      else w.(zones := w.zones[r.zone := SetField(fields, r)],
              maskOnly := if IsDamper(r.field) then w.maskOnly else w.maskOnly - {r.zone})
  }

  function Apply(w: World, r: Reading): World {
    if r.zone == 0 then ApplySystem(w, r) else ApplyZone(w, r)
  }

  function Horizon(field: string): int {
    if field == "filter_life_used" || field == "uv_life_used" || field == "humidifier_pad_life_used"
       || field == "vent_filter_life_used"
    then 3 * 3600 * SECOND else 300 * SECOND
  }

  function Staled(field: string, f: Field, now: int): Field {
    f.(stale := now - f.ts > Horizon(field))
  }

  function StaledAll(fields: map<string, Field>, now: int): map<string, Field> {
    map k | k in fields :: Staled(k, fields[k], now)
  }

  // ----- Implementation -----

  class State {
    var sys: map<string, Field>
    var zones: map<int, map<string, Field>>
    var maskOnly: set<int>

    function Abstract(): World
      reads this
    {
      World(sys, zones, maskOnly)
    }

    /** `New`. */
    constructor ()
      ensures Abstract() == NEW_WORLD
    {
      sys, zones, maskOnly := map[], map[1 := map[]], {};
    }

    /** `applyActiveZonesMask`. */
    method ApplyActiveZonesMask(mask: int)
      modifies this
      ensures Abstract() == ApplyMask(old(Abstract()), mask, MAX_ZONES)
    {
      for z := 1 to MAX_ZONES + 1
        invariant Abstract() == ApplyMask(old(Abstract()), mask, z - 1)
      {
        if Bit(mask, z - 1) {
          if z !in zones {
            zones := zones[z := map[]];
            maskOnly := maskOnly + {z};
          }
          continue;
        }
        if z != 1 && z in maskOnly {
          zones := zones - {z};
          maskOnly := maskOnly - {z};
        }
      }
    }

    /** `Apply`. */
    method ApplyReading(r: Reading)
      modifies this
      ensures Abstract() == Apply(old(Abstract()), r)
    {
      var f := Field(r.value, r.text, r.ts, false);
      if r.zone == 0 {
        if r.field in sys && r.ts < sys[r.field].ts {
          return;
        }
        if r.field == "active_zones" {
          ApplyActiveZonesMask(Truncate(r.value));
        }
        sys := sys[r.field := f];
        return;
      }
      var isDamper := r.field == "damper_position" || r.field == "damper_cmd";
      var zf: map<string, Field> := map[];
      if r.zone in zones {
        zf := zones[r.zone];
      } else if isDamper {
        return;
      }
      if r.field in zf && r.ts < zf[r.field].ts {
        return;
      }
      if !isDamper {
        maskOnly := maskOnly - {r.zone};
      }
      zf := zf[r.field := f];
      if r.field == "hold" && r.value == 0.0 {
        zf := zf - {"hold_remaining_min"};
      }
      zones := zones[r.zone := zf];
    }

    /** `Snapshot`. */
    method TakeSnapshot(now: int) returns (snap: Snapshot)
      ensures snap.sys == StaledAll(sys, now)
      ensures snap.zones.Keys == zones.Keys && forall z :: z in zones ==> snap.zones[z] == StaledAll(zones[z], now)
    {
      var outSys := CopyFields(sys, now);
      var outZones: map<int, map<string, Field>> := map[];
      var todo := zones.Keys;
      while todo != {}
        invariant todo <= zones.Keys && outZones.Keys == zones.Keys - todo
        invariant forall z :: z in outZones ==> outZones[z] == StaledAll(zones[z], now)
        decreases todo
      {
        SomeMember(todo);
        var z :| z in todo;
        var copy := CopyFields(zones[z], now);
        outZones := outZones[z := copy];
        todo := todo - {z};
      }
      snap := Snapshot(outSys, outZones);
    }

    method CopyFields(fields: map<string, Field>, now: int) returns (out: map<string, Field>)
      ensures out == StaledAll(fields, now)
    {
      out := map[];
      var todo := fields.Keys;
      while todo != {}
        invariant todo <= fields.Keys && out.Keys == fields.Keys - todo
        invariant forall k :: k in out ==> out[k] == Staled(k, fields[k], now)
        decreases todo
      {
        var k :| k in todo;
        out := out[k := Staled(k, fields[k], now)];
        todo := todo - {k};
      }
    }
  }

  // ----- The state is a function of the history -----

  function Run(rs: seq<Reading>): World {
    if rs == [] then NEW_WORLD else Apply(Run(rs[..|rs| - 1]), rs[|rs| - 1])
  }

  /** A reading of `field` of zone `z`, the system being zone 0. */
  predicate IsOf(r: Reading, z: int, field: string) {
    r.zone == z && r.field == field
  }

  /** The reading a field shows: the latest by timestamp, the last among equals. */
  function Latest(rs: seq<Reading>, z: int, field: string): Option<Reading> {
    if rs == [] then None
    else
      var before, r := Latest(rs[..|rs| - 1], z, field), rs[|rs| - 1];
      if IsOf(r, z, field) && (before.None? || before.value.ts <= r.ts) then Some(r) else before
  }

  /** What `Latest` finds: no reading before it is newer, and every one after it is older. */
  lemma {:induction false} LatestIsLatest(rs: seq<Reading>, z: int, field: string)
    ensures Latest(rs, z, field).None? <==> forall i :: 0 <= i < |rs| ==> !IsOf(rs[i], z, field)
    ensures Latest(rs, z, field).Some? ==>
      exists i :: 0 <= i < |rs| && rs[i] == Latest(rs, z, field).value && IsOf(rs[i], z, field)
        && (forall j :: 0 <= j < i && IsOf(rs[j], z, field) ==> rs[j].ts <= rs[i].ts)
        && (forall j :: i < j < |rs| && IsOf(rs[j], z, field) ==> rs[j].ts < rs[i].ts)
  {
    if rs != [] {
      var n := |rs| - 1;
      var before, r := Latest(rs[..n], z, field), rs[n];
      LatestIsLatest(rs[..n], z, field);
      assert rs == rs[..n] + [r];
      if IsOf(r, z, field) && (before.None? || before.value.ts <= r.ts) {
        assert forall j :: 0 <= j < n && IsOf(rs[j], z, field) ==> rs[..n][j].ts <= r.ts;
      }
    }
  }

  /** Zones for which a reading other than a damper's has ever come in. */
  function Sensed(rs: seq<Reading>): set<int> {
    if rs == [] then {}
    else
      var r := rs[|rs| - 1];
      Sensed(rs[..|rs| - 1]) + (if r.zone != 0 && !IsDamper(r.field) then {r.zone} else {})
  }

  function MaskZones(mask: int): set<int> {
    set z | 1 <= z <= MAX_ZONES && InMask(mask, z)
  }

  /** The zones of the last accepted active_zones reading. */
  function Masked(rs: seq<Reading>): set<int> {
    match Latest(rs, 0, "active_zones")
    case Some(r) => MaskZones(Truncate(r.value))
    case None => {}
  }

  /** The zone set, the retractable zones and the field contents that `sensed` and `masked` call for. */
  ghost predicate Owed(w: World, sensed: set<int>, masked: set<int>) {
    && w.zones.Keys == {1} + sensed + masked
    && w.maskOnly == masked - sensed - {1}
    && forall z, f :: z in w.zones && f in w.zones[z] && !IsDamper(f) ==> z in sensed
  }

  /** The zones of the new mask up to `n`, and of the old beyond it. */
  function Mixed(masked: set<int>, mask: int, n: int): set<int> {
    (set z | 1 <= z <= MAX_ZONES && InMask(mask, z) && z <= n) + (set z | z in masked && z > n)
  }

  lemma MixedNext(masked: set<int>, mask: int, n: int)
    requires 1 <= n <= MAX_ZONES
    ensures Mixed(masked, mask, n) ==
      if InMask(mask, n) then Mixed(masked, mask, n - 1) + {n} else Mixed(masked, mask, n - 1) - {n}
  {
  }

  lemma MaskStepOwed(w: World, mask: int, z: int, sensed: set<int>, masked: set<int>)
    requires Owed(w, sensed, masked) && 1 <= z <= MAX_ZONES
    ensures Owed(MaskStep(w, mask, z), sensed, if InMask(mask, z) then masked + {z} else masked - {z})
  {
  }

  lemma {:induction false} ApplyMaskOwed(w: World, mask: int, n: nat, sensed: set<int>, masked: set<int>)
    requires Owed(w, sensed, masked) && n <= MAX_ZONES && forall z :: z in masked ==> 1 <= z <= MAX_ZONES
    ensures Owed(ApplyMask(w, mask, n), sensed, Mixed(masked, mask, n))
  {
    if n == 0 {
      assert Mixed(masked, mask, 0) == masked;
    } else {
      ApplyMaskOwed(w, mask, n - 1, sensed, masked);
      MixedNext(masked, mask, n);
      MaskStepOwed(ApplyMask(w, mask, n - 1), mask, n, sensed, Mixed(masked, mask, n - 1));
    }
  }

  lemma ApplyZoneOwed(w: World, r: Reading, sensed: set<int>, masked: set<int>)
    requires Owed(w, sensed, masked) && r.zone != 0
    ensures Owed(ApplyZone(w, r), sensed + (if IsDamper(r.field) then {} else {r.zone}), masked)
  {
  }

  lemma {:induction false} MaskLeavesSystem(w: World, mask: int, n: nat)
    ensures ApplyMask(w, mask, n).sys == w.sys
  {
    if n > 0 {
      MaskLeavesSystem(w, mask, n - 1);
    }
  }

  lemma {:induction false} SystemShowsLatest(rs: seq<Reading>, f: string)
    ensures f in Run(rs).sys <==> Latest(rs, 0, f).Some?
    ensures f in Run(rs).sys ==> Run(rs).sys[f] == ToField(Latest(rs, 0, f).value)
  {
    if rs != [] {
      var before, r := rs[..|rs| - 1], rs[|rs| - 1];
      SystemShowsLatest(before, f);
      MaskLeavesSystem(Run(before), Truncate(r.value), MAX_ZONES);
    }
  }

  lemma {:induction false} RunOwed(rs: seq<Reading>)
    ensures Owed(Run(rs), Sensed(rs), Masked(rs))
  {
    if rs != [] {
      var before, r := rs[..|rs| - 1], rs[|rs| - 1];
      RunOwed(before);
      SystemShowsLatest(before, "active_zones");
      if r.zone != 0 {
        ApplyZoneOwed(Run(before), r, Sensed(before), Masked(before));
      } else if IsOf(r, 0, "active_zones") && !Outdated(Run(before).sys, r) {
        ApplyMaskOwed(Run(before), Truncate(r.value), MAX_ZONES, Sensed(before), Masked(before));
        assert Mixed(Masked(before), Truncate(r.value), MAX_ZONES) == MaskZones(Truncate(r.value));
      }
    }
  }

  /**
   For every sequence of readings: the zones are zone 1, the zones any non-damper reading
   ever came in for, and those of the last accepted mask; the retractable ones are those
   owed to the mask alone; and each system field shows the latest reading ever received.
   */
  lemma StateIsHistory(rs: seq<Reading>)
    ensures Run(rs).zones.Keys == {1} + Sensed(rs) + Masked(rs)
    ensures Run(rs).maskOnly == Masked(rs) - Sensed(rs) - {1}
    ensures forall f :: f in Run(rs).sys <==> Latest(rs, 0, f).Some?
    ensures forall f :: f in Run(rs).sys ==> Run(rs).sys[f] == ToField(Latest(rs, 0, f).value)
  {
    RunOwed(rs);
    forall f
      ensures f in Run(rs).sys <==> Latest(rs, 0, f).Some?
      ensures f in Run(rs).sys ==> Run(rs).sys[f] == ToField(Latest(rs, 0, f).value)
    {
      SystemShowsLatest(rs, f);
    }
  }

  ghost predicate ShowsLatest(w: World, rs: seq<Reading>, z: int, field: string) {
    match Latest(rs, z, field)
    case Some(r) => z in w.zones && field in w.zones[z] && w.zones[z][field] == ToField(r)
    case None => z in w.zones ==> field !in w.zones[z]
  }

  /** A mask leaves the fields of a zone that it may not retract. */
  lemma {:induction false} MaskLeavesFields(w: World, mask: int, n: nat, z: int, field: string)
    requires z in w.zones ==> field !in w.zones[z] || z !in w.maskOnly
    ensures var v := ApplyMask(w, mask, n);
            && (z in w.zones && field in w.zones[z] ==>
                  z in v.zones && field in v.zones[z] && v.zones[z][field] == w.zones[z][field] && z !in v.maskOnly)
            && (z in v.zones && field in v.zones[z] ==> z in w.zones && field in w.zones[z])
  {
    if n > 0 {
      MaskLeavesFields(w, mask, n - 1, z, field);
    }
  }

  /**
   A zone's own fields are never lost to a mask: each shows the latest reading ever received.
   The countdown is the exception, for the end of a hold deletes it.
   */
  lemma {:induction false} ZoneShowsLatest(rs: seq<Reading>, z: int, field: string)
    requires z != 0 && !IsDamper(field) && field != "hold_remaining_min"
    ensures ShowsLatest(Run(rs), rs, z, field)
  {
    if rs != [] {
      var n := |rs| - 1;
      ZoneShowsLatest(rs[..n], z, field);
      RunOwed(rs[..n]);
      if rs[n].zone == 0 {
        MaskLeavesFields(Run(rs[..n]), Truncate(rs[n].value), MAX_ZONES, z, field);
      }
    }
  }

  // ----- Damper fields -----

  /** The zones that a history of readings gives rise to. */
  function Zones(rs: seq<Reading>): set<int> {
    {1} + Sensed(rs) + Masked(rs)
  }

  /** How much of the history came before zone `z` was last established. */
  function PresentSince(rs: seq<Reading>, z: int): (k: nat)
    requires z in Zones(rs)
    ensures k <= |rs|
  {
    if rs == [] then 0
    else if z in Zones(rs[..|rs| - 1]) then PresentSince(rs[..|rs| - 1], z)
    else |rs| - 1
  }

  /** A mask leaves the fields of a zone that stays, and gives a zone that comes none. */
  lemma {:induction false} MaskOnce(w: World, mask: int, n: nat, z: int)
    ensures var v := ApplyMask(w, mask, n);
            && (z > n ==> (z in v.zones <==> z in w.zones))
            && (z in v.zones ==> v.zones[z] == if z in w.zones then w.zones[z] else map[])
  {
    if n > 0 {
      MaskOnce(w, mask, n - 1, z);
    }
  }

  /** A reading that establishes a zone leaves it without damper fields. */
  lemma Establishes(w: World, r: Reading, z: int, field: string)
    requires z !in w.zones && z in Apply(w, r).zones && IsDamper(field)
    ensures field !in Apply(w, r).zones[z] && !IsOf(r, z, field)
  {
    if r.zone == 0 {
      MaskOnce(w, Truncate(r.value), MAX_ZONES, z);
    }
  }

  /** What a reading does to a damper field of a zone that stays. */
  lemma DamperStep(w: World, r: Reading, z: int, field: string)
    requires z in w.zones && z in Apply(w, r).zones && IsDamper(field) && z != 0
    ensures var fields, after := w.zones[z], Apply(w, r).zones[z];
            if IsOf(r, z, field) && !Outdated(fields, r) then field in after && after[field] == ToField(r)
            else (field in after <==> field in fields) && (field in fields ==> after[field] == fields[field])
  {
    if r.zone == 0 {
      MaskOnce(w, Truncate(r.value), MAX_ZONES, z);
    }
  }

  lemma DamperKeeps(w: World, suffix: seq<Reading>, r: Reading, z: int, field: string)
    requires z in w.zones && z in Apply(w, r).zones && IsDamper(field) && z != 0
    requires ShowsLatest(w, suffix, z, field)
    ensures ShowsLatest(Apply(w, r), suffix + [r], z, field)
  {
    assert (suffix + [r])[..|suffix|] == suffix;
    DamperStep(w, r, z, field);
  }

  lemma LatestOfOne(r: Reading, z: int, field: string)
    requires !IsOf(r, z, field)
    ensures Latest([r], z, field) == None
  {
    assert [r][..0] == [];
  }

  lemma ZonesShown(rs: seq<Reading>, z: int)
    ensures z in Zones(rs) <==> z in Run(rs).zones
  {
    StateIsHistory(rs);
  }

  /** One more reading, whether the zone was there before it or not. */
  lemma DamperNext(rs: seq<Reading>, z: int, field: string)
    requires rs != [] && z in Zones(rs) && z != 0 && IsDamper(field)
    requires var before := rs[..|rs| - 1];
             z in Zones(before) ==> ShowsLatest(Run(before), before[PresentSince(before, z)..], z, field)
    ensures ShowsLatest(Run(rs), rs[PresentSince(rs, z)..], z, field)
  {
    var n := |rs| - 1;
    var before, r, k := rs[..n], rs[n], PresentSince(rs, z);
    ZonesShown(before, z);
    ZonesShown(rs, z);
    assert Run(rs) == Apply(Run(before), r);
    if z in Zones(before) {
      assert rs[k..] == before[k..] + [r];
      DamperKeeps(Run(before), before[k..], r, z, field);
    } else {
      assert rs[k..] == [r];
      Establishes(Run(before), r, z, field);
      LatestOfOne(r, z, field);
    }
  }

  /**
   A damper field shows the latest reading since its zone was last established: readings for a
   zone that is not there are dropped, and a zone that a mask retracts forgets its dampers.
   */
  lemma {:induction false} DamperShowsLatest(rs: seq<Reading>, z: int, field: string)
    requires z in Zones(rs) && z != 0 && IsDamper(field)
    ensures ShowsLatest(Run(rs), rs[PresentSince(rs, z)..], z, field)
  {
    if rs == [] {
      assert Latest([], z, field) == None;
    } else {
      if z in Zones(rs[..|rs| - 1]) {
        DamperShowsLatest(rs[..|rs| - 1], z, field);
      }
      DamperNext(rs, z, field);
    }
  }

  /** Feeding readings to an assembler, one after another. */
  method Assemble(rs: seq<Reading>) returns (s: State)
    ensures fresh(s) && s.Abstract() == Run(rs)
  {
    s := new State();
    for i := 0 to |rs|
      invariant s.Abstract() == Run(rs[..i])
    {
      assert rs[..i + 1][..i] == rs[..i];
      s.ApplyReading(rs[i]);
    }
    assert rs[..|rs|] == rs;
  }
}
