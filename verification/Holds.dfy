/**
 Timed holds across decoding and assembly: the countdown a zone shows is the one of the
 last configuration push, and is gone exactly when that push ended the hold.
 */
module Holds {
  import opened Basics
  import opened Frames
  import opened Readings
  import opened Snapshots
  import opened Assembler
  import opened Protocol

  /** A decoded frame and when it arrived. */
  datatype Arrival = Arrival(frame: Frame, ts: int)

  function ApplyAll(w: World, rs: seq<Reading>): World
    decreases |rs|
  {
    if rs == [] then w else ApplyAll(Apply(w, rs[0]), rs[1..])
  }

  /** The state after the read loop has handled all arrivals. */
  function After(arrivals: seq<Arrival>, others: SystemDecoder): World {
    if arrivals == [] then NEW_WORLD
    else
      var a := arrivals[|arrivals| - 1];
      ApplyAll(After(arrivals[..|arrivals| - 1], others), ReadingsOf(a.frame, a.ts, others))
  }

  /** The payload of the last push to zone `z`. */
  function LastPush(arrivals: seq<Arrival>, z: int): (p: Option<seq<Byte>>)
    ensures p.Some? ==> |p.value| >= 8
  {
    if arrivals == [] then None
    else
      var f := arrivals[|arrivals| - 1].frame;
      if IsPush(f, z) then Some(f.data[3..]) else LastPush(arrivals[..|arrivals| - 1], z)
  }

  ghost predicate SortedArrivals(arrivals: seq<Arrival>) {
    forall i, j :: 0 <= i < j < |arrivals| ==> arrivals[i].ts <= arrivals[j].ts
  }

  // ----- One zone's hold fields -----

  function ShownField(w: World, z: int, field: string): Option<Field> {
    if z in w.zones && field in w.zones[z] then Some(w.zones[z][field]) else None
  }

  /** Zone `z` is there for good. */
  predicate Firm(w: World, z: int) { z in w.zones && z !in w.maskOnly }

  ghost predicate NoneNewer(w: World, now: int) {
    forall z, f :: z in w.zones && f in w.zones[z] ==> w.zones[z][f].ts <= now
  }

  /** The zone's hold fields are those of push payload `p`. */
  ghost predicate ShowsPush(w: World, z: int, p: seq<Byte>)
    requires |p| >= 8
  {
    && Firm(w, z)
    && ShownField(w, z, "hold").Some? && ShownField(w, z, "hold").value.value == (if TimedHold(p) then 1.0 else 0.0)
    && (ShownField(w, z, "hold_remaining_min").Some? <==> TimedHold(p))
    && (TimedHold(p) ==> ShownField(w, z, "hold_remaining_min").value.value == HoldMinutes(p))
  }

  ghost predicate ShowsNoHold(w: World, z: int) {
    ShownField(w, z, "hold").None? && ShownField(w, z, "hold_remaining_min").None?
  }

  ghost predicate HoldsFor(w: World, z: int, p: Option<seq<Byte>>)
    requires p.Some? ==> |p.value| >= 8
  {
    match p
    case Some(payload) => ShowsPush(w, z, payload)
    case None => ShowsNoHold(w, z)
  }

  lemma {:induction false} MaskLeavesHolds(w: World, mask: int, n: nat, z: int, p: Option<seq<Byte>>)
    requires (p.Some? ==> |p.value| >= 8) && HoldsFor(w, z, p)
    ensures HoldsFor(ApplyMask(w, mask, n), z, p)
    ensures forall now :: NoneNewer(w, now) ==> NoneNewer(ApplyMask(w, mask, n), now)
  {
    if n > 0 {
      MaskLeavesHolds(w, mask, n - 1, z, p);
    }
  }

  /** A reading that is not a hold field of `z` leaves its hold as it is. */
  lemma OtherReading(w: World, r: Reading, z: int, p: Option<seq<Byte>>, now: int)
    requires (p.Some? ==> |p.value| >= 8) && HoldsFor(w, z, p) && z != 0
    requires NoneNewer(w, now) && r.ts <= now && (r.zone == z ==> !IsHoldField(r.field))
    ensures HoldsFor(Apply(w, r), z, p) && NoneNewer(Apply(w, r), now)
  {
    if r.zone == 0 {
      MaskLeavesHolds(w, Truncate(r.value), MAX_ZONES, z, p);
    }
  }

  lemma {:induction false} OtherReadings(w: World, rs: seq<Reading>, z: int, p: Option<seq<Byte>>, now: int)
    requires (p.Some? ==> |p.value| >= 8) && HoldsFor(w, z, p) && z != 0 && NoneNewer(w, now)
    requires forall i :: 0 <= i < |rs| ==> rs[i].ts <= now && (rs[i].zone == z ==> !IsHoldField(rs[i].field))
    ensures HoldsFor(ApplyAll(w, rs), z, p) && NoneNewer(ApplyAll(w, rs), now)
    decreases |rs|
  {
    if rs != [] {
      OtherReading(w, rs[0], z, p, now);
      OtherReadings(Apply(w, rs[0]), rs[1..], z, p, now);
    }
  }

  // ----- A push -----

  /** What an accepted, undampered reading of zone `z` does to its hold fields. */
  lemma ZoneReading(w: World, r: Reading, z: int, now: int)
    requires NoneNewer(w, now) && r.ts == now && r.zone == z && z != 0 && !IsDamper(r.field)
    ensures var v := Apply(w, r);
            && Firm(v, z) && NoneNewer(v, now)
            && ShownField(v, z, "hold") == (if r.field == "hold" then Some(ToField(r)) else ShownField(w, z, "hold"))
            && ShownField(v, z, "hold_remaining_min") ==
                 (if r.field == "hold_remaining_min" then Some(ToField(r))
                  else if r.field == "hold" && r.value == 0.0 then None
                  else ShownField(w, z, "hold_remaining_min"))
  {
  }

  /** Readings of a zone other than its hold fields. */
  lemma {:induction false} PlainReadings(w: World, rs: seq<Reading>, z: int, now: int)
    requires NoneNewer(w, now) && z != 0 && Firm(w, z)
    requires forall i :: 0 <= i < |rs| ==>
      rs[i].ts == now && rs[i].zone == z && !IsDamper(rs[i].field) && !IsHoldField(rs[i].field)
    ensures var v := ApplyAll(w, rs);
            && Firm(v, z) && NoneNewer(v, now)
            && ShownField(v, z, "hold") == ShownField(w, z, "hold")
            && ShownField(v, z, "hold_remaining_min") == ShownField(w, z, "hold_remaining_min")
    decreases |rs|
  {
    if rs != [] {
      ZoneReading(w, rs[0], z, now);
      PlainReadings(Apply(w, rs[0]), rs[1..], z, now);
    }
  }

  lemma {:induction false} ApplyAllSplit(w: World, rs: seq<Reading>, more: seq<Reading>)
    ensures ApplyAll(w, rs + more) == ApplyAll(ApplyAll(w, rs), more)
    decreases |rs|
  {
    if rs == [] {
      assert rs + more == more;
    } else {
      assert (rs + more)[1..] == rs[1..] + more;
      ApplyAllSplit(Apply(w, rs[0]), rs[1..], more);
    }
  }

  /** The readings of a push: the hold, three other fields, and the countdown of a timed hold. */
  ghost predicate ReadsPush(rs: seq<Reading>, z: int, payload: seq<Byte>, now: int)
    requires |payload| >= 8
  {
    && |rs| == (if TimedHold(payload) then 5 else 4)
    && (forall i :: 0 <= i < |rs| ==> rs[i].ts == now && rs[i].zone == z && !IsDamper(rs[i].field))
    && rs[0].field == "hold" && rs[0].value == (if TimedHold(payload) then 1.0 else 0.0)
    && (forall i :: 1 <= i < 4 ==> !IsHoldField(rs[i].field))
    && (TimedHold(payload) ==> rs[4].field == "hold_remaining_min" && rs[4].value == HoldMinutes(payload))
  }

  lemma PushRead(z: int, payload: seq<Byte>, o: Origin)
    requires z != 0 && |payload| >= 8
    ensures ReadsPush(Stamped(ZoneConfigPush(z, payload), o), z, payload, o.ts)
  {
  }

  lemma PushReadingsApplied(w: World, rs: seq<Reading>, z: int, payload: seq<Byte>, now: int)
    requires z != 0 && |payload| >= 8 && NoneNewer(w, now) && ReadsPush(rs, z, payload, now)
    ensures ShowsPush(ApplyAll(w, rs), z, payload) && NoneNewer(ApplyAll(w, rs), now)
  {
    var w1 := Apply(w, rs[0]);
    ZoneReading(w, rs[0], z, now);
    var w2 := ApplyAll(w1, rs[1..4]);
    PlainReadings(w1, rs[1..4], z, now);
    assert ApplyAll(w, rs) == ApplyAll(w2, rs[4..]) by {
      assert rs[1..] == rs[1..4] + rs[4..];
      ApplyAllSplit(w1, rs[1..4], rs[4..]);
    }
    if TimedHold(payload) {
      ZoneReading(w2, rs[4], z, now);
      UnfoldOne(w2, rs[4..]);
    }
  }

  /** After a push the zone shows that push. */
  lemma PushApplied(w: World, z: int, payload: seq<Byte>, o: Origin)
    requires z != 0 && |payload| >= 8 && NoneNewer(w, o.ts)
    ensures var v := ApplyAll(w, Stamped(ZoneConfigPush(z, payload), o));
            ShowsPush(v, z, payload) && NoneNewer(v, o.ts)
  {
    PushRead(z, payload, o);
    PushReadingsApplied(w, Stamped(ZoneConfigPush(z, payload), o), z, payload, o.ts);
  }

  lemma UnfoldOne(w: World, rs: seq<Reading>)
    requires rs != []
    ensures ApplyAll(w, rs) == ApplyAll(Apply(w, rs[0]), rs[1..])
  {
  }

  /**
   For every sequence of decoded frames whose timestamps do not run backwards, at every
   frame boundary: a zone shows a hold exactly when it has been pushed a configuration, and
   then it shows that of the last push, with a countdown exactly when the hold is timed.
   */
  lemma {:induction false} HoldsFollowPushes(arrivals: seq<Arrival>, z: int, others: SystemDecoder)
    requires SortedArrivals(arrivals) && z != 0
    ensures HoldsFor(After(arrivals, others), z, LastPush(arrivals, z))
    ensures arrivals != [] ==> NoneNewer(After(arrivals, others), arrivals[|arrivals| - 1].ts)
  {
    if arrivals != [] {
      var n := |arrivals| - 1;
      var before, a := arrivals[..n], arrivals[n];
      HoldsFollowPushes(before, z, others);
      var w, rs := After(before, others), ReadingsOf(a.frame, a.ts, others);
      assert NoneNewer(w, a.ts);
      if IsPush(a.frame, z) {
        assert rs == Stamped(ZoneConfigPush(z, a.frame.data[3..]), OriginOf(a.frame, a.ts));
        PushApplied(w, z, a.frame.data[3..], OriginOf(a.frame, a.ts));
      } else {
        NotForZone(a, z, others);
        OtherReadings(w, rs, z, LastPush(before, z), a.ts);
      }
    }
  }

  lemma NotForZone(a: Arrival, z: int, others: SystemDecoder)
    requires !IsPush(a.frame, z) && z != 0
    ensures var rs := ReadingsOf(a.frame, a.ts, others);
            forall i :: 0 <= i < |rs| ==> rs[i].ts <= a.ts && (rs[i].zone == z ==> !IsHoldField(rs[i].field))
  {
    if exists y :: IsPush(a.frame, y) {
      var y :| IsPush(a.frame, y);
      assert ReadingsOf(a.frame, a.ts, others) ==
        Stamped(ZoneConfigPush(y, a.frame.data[3..]), OriginOf(a.frame, a.ts));
    } else {
      OnlyPushesHold(a.frame, a.ts, others);
    }
  }

  /**
   What a consumer of the state sees: the countdown is shown exactly when `hold` is present
   and nonzero, and its value is the last push's ticks over 30.
   */
  lemma CountdownIffHold(arrivals: seq<Arrival>, z: int, others: SystemDecoder)
    requires SortedArrivals(arrivals) && z != 0
    ensures var w := After(arrivals, others);
            var hold, left := ShownField(w, z, "hold"), ShownField(w, z, "hold_remaining_min");
            && (left.Some? <==> hold.Some? && hold.value.value != 0.0)
            && (left.Some? ==>
                  LastPush(arrivals, z).Some? && left.value.value == HoldMinutes(LastPush(arrivals, z).value))
  {
    HoldsFollowPushes(arrivals, z, others);
  }

  // ----- The object -----

  /** The loop of `run` that applies the readings of one frame. */
  method ApplyEach(s: State, rs: seq<Reading>)
    modifies s
    ensures s.Abstract() == ApplyAll(old(s.Abstract()), rs)
  {
    ghost var w := s.Abstract();
    for i := 0 to |rs|
      invariant s.Abstract() == ApplyAll(w, rs[..i])
    {
      assert rs[..i + 1] == rs[..i] + [rs[i]];
      ApplyAllSplit(w, rs[..i], [rs[i]]);
      UnfoldOne(s.Abstract(), [rs[i]]);
      s.ApplyReading(rs[i]);
    }
    assert rs[..|rs|] == rs;
  }

  /** Decoding frames as they arrive and applying what they read gives the state of all arrivals. */
  method Follow(arrivals: seq<Arrival>, others: SystemDecoder) returns (s: State)
    ensures fresh(s) && s.Abstract() == After(arrivals, others)
  {
    s := new State();
    for i := 0 to |arrivals|
      invariant fresh(s) && s.Abstract() == After(arrivals[..i], others)
    {
      assert arrivals[..i + 1][..i] == arrivals[..i];
      var rs, _ := DecodeFrame(arrivals[i].frame, arrivals[i].ts, others);
      ApplyEach(s, rs);
    }
    assert arrivals[..|arrivals|] == arrivals;
  }
}
