/**
 Zone presence over decoded frames. The assembler can retract a zone that only the SAM's
 active_zones mask vouched for, but the frame that carries the mask carries two readings for
 every zone it names, and those count as traffic of the zone itself.
 */
module Presence {
  import opened Basics
  import opened Frames
  import opened Readings
  import opened Assembler
  import opened Protocol
  import opened Holds
  import Bytes

  /** Only `systemState3B02` emits the mask. */
  ghost predicate NoMask(others: SystemDecoder) {
    forall f: Frame :: others(f).Some? ==>
      forall i :: 0 <= i < |others(f).value| ==> others(f).value[i].field != "active_zones"
  }

  ghost predicate MaskFree(rs: seq<Reading>) {
    forall i :: 0 <= i < |rs| ==> rs[i].zone != 0 || rs[i].field != "active_zones"
  }

  ghost predicate Grows(w: World, v: World) {
    w.zones.Keys <= v.zones.Keys
  }

  /** Retractable zones are beyond `n`, have no field yet, and are named by `mask`. */
  ghost predicate Bare(w: World, n: nat, mask: Byte) {
    forall z: int :: z in w.maskOnly ==> n < z <= 8 && z in w.zones && w.zones[z] == map[] && ZoneBit(mask, z)
  }

  // ----- The mask as a byte and as a number -----

  /** The number whose binary digits, least first, are those from `i` on. */
  function Horner(digits: seq<nat>, i: nat): nat
    requires i <= |digits|
    decreases |digits| - i
  {
    if i == |digits| then 0 else digits[i] + 2 * Horner(digits, i + 1)
  }

  lemma HalfOf(low: nat, rest: nat)
    requires low < 2
    ensures (low + 2 * rest) / 2 == rest && (low + 2 * rest) % 2 == low
  {
  }

  lemma {:induction false} BitOfHorner(digits: seq<nat>, i: nat, k: nat)
    requires i + k < |digits| && forall j :: 0 <= j < |digits| ==> digits[j] < 2
    ensures Bit(Horner(digits, i), k) <==> digits[i + k] == 1
    decreases k
  {
    HalfOf(digits[i], Horner(digits, i + 1));
    if k > 0 {
      BitOfHorner(digits, i + 1, k - 1);
    }
  }

  lemma HornerOfEight(b: seq<nat>)
    requires |b| == 8
    ensures Horner(b, 0) == b[0] + 2 * b[1] + 4 * b[2] + 8 * b[3] + 16 * b[4] + 32 * b[5] + 64 * b[6] + 128 * b[7]
  {
    assert Horner(b, 8) == 0 && Horner(b, 7) == b[7];
    assert Horner(b, 6) == b[6] + 2 * Horner(b, 7);
    assert Horner(b, 5) == b[5] + 2 * Horner(b, 6);
    assert Horner(b, 4) == b[4] + 2 * Horner(b, 5);
    assert Horner(b, 3) == b[3] + 2 * Horner(b, 4);
    assert Horner(b, 2) == b[2] + 2 * Horner(b, 3);
    assert Horner(b, 1) == b[1] + 2 * Horner(b, 2);
  }

  function Digit(b: Byte, k: nat): nat
    requires k < 8
  {
    if (b >> k) & 1 == 1 then 1 else 0
  }

  lemma Digits(b: Byte)
    ensures Bytes.Binary(b) == Digit(b, 0) + 2 * Digit(b, 1) + 4 * Digit(b, 2) + 8 * Digit(b, 3)
                             + 16 * Digit(b, 4) + 32 * Digit(b, 5) + 64 * Digit(b, 6) + 128 * Digit(b, 7)
  {
    assert (if b & 1 != 0 then 1 else 0) == Digit(b, 0);
    assert (if b & 2 != 0 then 2 else 0) == 2 * Digit(b, 1);
    assert (if b & 4 != 0 then 4 else 0) == 4 * Digit(b, 2);
    assert (if b & 8 != 0 then 8 else 0) == 8 * Digit(b, 3);
    assert (if b & 16 != 0 then 16 else 0) == 16 * Digit(b, 4);
    assert (if b & 32 != 0 then 32 else 0) == 32 * Digit(b, 5);
    assert (if b & 64 != 0 then 64 else 0) == 64 * Digit(b, 6);
    assert (if b & 128 != 0 then 128 else 0) == 128 * Digit(b, 7);
  }

  /** The decoder and the assembler read the same zones off the mask. */
  lemma MaskAgrees(b: Byte, z: nat)
    requires 1 <= z <= 8
    ensures InMask(Truncate(Num(b)), z) <==> ZoneBit(b, z)
  {
    Bytes.ToIntIsBinary(b);
    Digits(b);
    var digits := seq(8, k requires 0 <= k < 8 => Digit(b, k));
    HornerOfEight(digits);
    BitOfHorner(digits, 0, z - 1);
  }

  // ----- One frame -----

  lemma {:induction false} MaskAdds(w: World, mask: int, n: nat)
    requires w.maskOnly == {} && n <= MAX_ZONES
    ensures var v := ApplyMask(w, mask, n);
            Grows(w, v) && forall z :: z in v.maskOnly ==>
              1 <= z <= n && InMask(mask, z) && z in v.zones && v.zones[z] == map[]
  {
    if n > 0 {
      MaskAdds(w, mask, n - 1);
    }
  }

  lemma {:induction false} NoMaskNoRetraction(w: World, rs: seq<Reading>)
    requires MaskFree(rs) && w.maskOnly == {}
    ensures ApplyAll(w, rs).maskOnly == {} && Grows(w, ApplyAll(w, rs))
    decreases |rs|
  {
    if rs != [] {
      NoMaskNoRetraction(Apply(w, rs[0]), rs[1..]);
    }
  }

  /** A system reading other than the mask. */
  lemma OtherSystem(w: World, r: Reading, n: nat, mask: Byte)
    requires Bare(w, n, mask) && r.zone == 0 && r.field != "active_zones"
    ensures Bare(Apply(w, r), n, mask) && Grows(w, Apply(w, r))
  {
  }

  /** A zone's own reading makes it permanent. */
  lemma ZoneSettles(w: World, r: Reading, n: nat, mask: Byte)
    requires Bare(w, n, mask) && r.zone == n + 1 && !IsDamper(r.field)
    ensures Bare(Apply(w, r), n + 1, mask) && Grows(w, Apply(w, r))
  {
  }

  lemma ZoneSettled(w: World, r: Reading, n: nat, mask: Byte)
    requires Bare(w, n, mask) && 1 <= r.zone <= n
    ensures Bare(Apply(w, r), n, mask) && Grows(w, Apply(w, r))
  {
  }

  lemma TwoReadings(w: World, r: Reading, s: Reading)
    ensures ApplyAll(w, [r, s]) == Apply(Apply(w, r), s)
  {
    UnfoldOne(w, [r, s]);
    UnfoldOne(Apply(w, r), [s]);
    assert [r, s][1..] == [s] && [s][1..] == [];
  }

  lemma StateZonesNext(p: seq<Byte>, n: nat, o: Origin)
    requires |p| >= 29 && 1 <= n <= 8
    ensures Stamped(StateZones(p, n), o) == Stamped(StateZones(p, n - 1), o) + Stamped(StateZone(p, n), o)
  {
  }

  lemma OneZoneSettles(w: World, p: seq<Byte>, n: nat, o: Origin)
    requires |p| >= 29 && 1 <= n <= 8 && Bare(w, n - 1, p[0])
    ensures var v := ApplyAll(w, Stamped(StateZone(p, n), o));
            Bare(v, n, p[0]) && Grows(w, v)
  {
    if ZoneBit(p[0], n) {
      var rs := Stamped(StateZone(p, n), o);
      assert rs == [rs[0], rs[1]];
      TwoReadings(w, rs[0], rs[1]);
      ZoneSettles(w, rs[0], n - 1, p[0]);
      ZoneSettled(Apply(w, rs[0]), rs[1], n, p[0]);
    }
  }

  lemma {:induction false} ZonesSettle(w: World, p: seq<Byte>, n: nat, o: Origin)
    requires |p| >= 29 && n <= 8 && Bare(w, 0, p[0])
    ensures var v := ApplyAll(w, Stamped(StateZones(p, n), o));
            Bare(v, n, p[0]) && Grows(w, v)
  {
    if n > 0 {
      ZonesSettle(w, p, n - 1, o);
      var before := Stamped(StateZones(p, n - 1), o);
      StateZonesNext(p, n, o);
      ApplyAllSplit(w, before, Stamped(StateZone(p, n), o));
      OneZoneSettles(ApplyAll(w, before), p, n, o);
    }
  }

  lemma NothingBare(w: World, mask: Byte)
    requires Bare(w, 8, mask)
    ensures w.maskOnly == {}
  {
    assert forall z: int :: z !in w.maskOnly;
  }

  lemma StateFrameSettles(w: World, p: seq<Byte>, o: Origin)
    requires |p| >= 29 && w.maskOnly == {}
    ensures var v := ApplyAll(w, Stamped(SystemState(p), o));
            v.maskOnly == {} && Grows(w, v)
  {
    var m := Reading(0, "active_zones", Num(p[0]), "", o.ts, o.owner, o.reg);
    var u := Reading(0, "metric_units", Num(p[1]), "", o.ts, o.owner, o.reg);
    var zones := Stamped(StateZones(p, 8), o);
    var tail := [ Reading(0, "outdoor_temp_sam", SignedNum(p[20]), "", o.ts, o.owner, o.reg),
                  Reading(0, "active_stages", Num(p[22] >> 4), "", o.ts, o.owner, o.reg),
                  Reading(0, "system_mode", Num(p[22] & 0x0f), ModeText(p[22] & 0x0f), o.ts, o.owner, o.reg) ];
    assert Stamped(SystemState(p), o) == [m, u] + zones + tail;
    ApplyAllSplit(w, [m, u] + zones, tail);
    ApplyAllSplit(w, [m, u], zones);
    TwoReadings(w, m, u);
    MaskReading(w, m, p[0]);
    var w1 := Apply(w, m);
    OtherSystem(w1, u, 0, p[0]);
    var w2 := Apply(w1, u);
    ZonesSettle(w2, p, 8, o);
    NothingBare(ApplyAll(w2, zones), p[0]);
    NoMaskNoRetraction(ApplyAll(w2, zones), tail);
  }

  lemma MaskReading(w: World, m: Reading, mask: Byte)
    requires w.maskOnly == {} && m.zone == 0 && m.field == "active_zones" && m.value == Num(mask)
    ensures Bare(Apply(w, m), 0, mask) && Grows(w, Apply(w, m))
  {
    MaskAdds(w, Truncate(m.value), MAX_ZONES);
    forall z: nat | 1 <= z <= 8 ensures InMask(Truncate(Num(mask)), z) <==> ZoneBit(mask, z) {
      MaskAgrees(mask, z);
    }
  }

  /** The decoded SAM state frame. */
  predicate IsState(f: Frame) {
    f.op == OP_ACK && f.src == WALL_CONTROL && Carries(f, SAM_STATE) && |f.data| >= 32
  }

  lemma {:induction false} DampersMaskFree(field: string, p: seq<Byte>, n: nat)
    requires n <= |p|
    ensures MaskFree(Dampers(field, p, n))
  {
    if n > 0 {
      DampersMaskFree(field, p, n - 1);
    }
  }

  lemma {:induction false} SettingsMaskFree(p: seq<Byte>, n: nat)
    requires |p| >= 150 && n <= 8
    ensures MaskFree(ZoneSettings(p, n))
  {
    if n > 0 {
      SettingsMaskFree(p, n - 1);
    }
  }

  /** The readings of a frame that carries none of the registers of the zones. */
  lemma UnscopedMaskFree(f: Frame, others: SystemDecoder)
    requires NoMask(others) && others(f).Some?
    ensures MaskFree(Unscoped(others(f).value))
  {
  }

  lemma DispatchMaskFree(f: Frame, others: SystemDecoder)
    requires NoMask(others) && !IsState(f) && Dispatch(f, others).Some?
    ensures MaskFree(Dispatch(f, others).value)
  {
    var p := f.data[3..];
    if Carries(f, DAMPER_CMD) || Carries(f, DAMPER_POSITION) {
      if |p| >= 8 {
        DampersMaskFree("damper_cmd", p, 8);
        DampersMaskFree("damper_position", p, 8);
      }
    } else if Carries(f, SAM_ZONES) {
      if |p| >= 150 {
        SettingsMaskFree(p, 8);
      }
    } else if !Carries(f, ZONE_PUSH) && !Carries(f, ZONE_STATUS) && !Carries(f, SAM_STATE) {
      UnscopedMaskFree(f, others);
    }
  }

  lemma OnlyStateMasks(f: Frame, ts: int, others: SystemDecoder)
    requires NoMask(others) && !IsState(f)
    ensures MaskFree(ReadingsOf(f, ts, others))
  {
    if Dispatch(f, others).Some? {
      DispatchMaskFree(f, others);
    }
  }

  lemma FrameSettles(w: World, a: Arrival, others: SystemDecoder)
    requires NoMask(others) && w.maskOnly == {}
    ensures var v := ApplyAll(w, ReadingsOf(a.frame, a.ts, others));
            v.maskOnly == {} && Grows(w, v)
  {
    if IsState(a.frame) {
      assert ReadingsOf(a.frame, a.ts, others) == Stamped(SystemState(a.frame.data[3..]), OriginOf(a.frame, a.ts));
      StateFrameSettles(w, a.frame.data[3..], OriginOf(a.frame, a.ts));
    } else {
      OnlyStateMasks(a.frame, a.ts, others);
      NoMaskNoRetraction(w, ReadingsOf(a.frame, a.ts, others));
    }
  }

  // ----- Every sequence of frames -----

  /**
   Whatever frames arrive, in whatever order of time, no zone is retractable at a frame
   boundary, and no frame ever removes a zone: the mask's retraction never takes effect.
   */
  lemma {:induction false} ZonesOnlyGrow(arrivals: seq<Arrival>, others: SystemDecoder)
    requires NoMask(others)
    ensures After(arrivals, others).maskOnly == {}
    ensures forall i :: 0 <= i <= |arrivals| ==> Grows(After(arrivals[..i], others), After(arrivals, others))
  {
    if arrivals == [] {
      assert arrivals[..0] == arrivals;
    } else {
      var n := |arrivals| - 1;
      var before, a := arrivals[..n], arrivals[n];
      ZonesOnlyGrow(before, others);
      FrameSettles(After(before, others), a, others);
      forall i | 0 <= i <= |arrivals|
        ensures Grows(After(arrivals[..i], others), After(arrivals, others))
      {
        if i <= n {
          assert arrivals[..i] == before[..i];
        } else {
          assert arrivals[..i] == arrivals;
        }
      }
    }
  }

  /** Over bare readings retraction is real: a mask that names zone 2 and then one that does not. */
  lemma ReadingsRetract()
    ensures var named, cleared := Reading(0, "active_zones", 2.0, "", 0), Reading(0, "active_zones", 1.0, "", 1);
            2 in Run([named]).zones && 2 !in Run([named, cleared]).zones
  {
    var named, cleared := Reading(0, "active_zones", 2.0, "", 0), Reading(0, "active_zones", 1.0, "", 1);
    StateIsHistory([named]);
    StateIsHistory([named, cleared]);
    assert [named, cleared][..1] == [named] && [named][..0] == [];
    assert Bit(2, 1) && !Bit(1, 1);
  }
}
