/**
 From the bus to the broker: frames decoded, assembled, copied into a snapshot and published.
 What the decoders say in words is never empty, so nothing that is decoded fails to reach
 the broker.
 */
module Pipeline {
  import opened Basics
  import opened Frames
  import opened Readings
  import opened Snapshots
  import opened Assembler
  import opened Protocol
  import opened Holds
  import Entities
  import opened Exporters

  /** The field of a scope that is published as text. */
  function Word(z: int): string {
    if z == 0 then "system_mode" else "fan_mode"
  }

  predicate Worded(r: Reading) {
    r.field == Word(r.zone) ==> r.text != ""
  }

  ghost predicate AllWorded(rs: seq<Reading>) {
    forall i :: 0 <= i < |rs| ==> Worded(rs[i])
  }

  predicate Says(fields: map<string, Field>, word: string) {
    word in fields ==> fields[word].text != ""
  }

  ghost predicate WordedWorld(w: World) {
    Says(w.sys, "system_mode") && forall z :: z in w.zones ==> Says(w.zones[z], "fan_mode")
  }

  /** No decoder but `systemState3B02` reads the system mode; one that did would have to say it. */
  ghost predicate OthersWorded(others: SystemDecoder) {
    forall f: Frame :: others(f).Some? ==>
      forall i :: 0 <= i < |others(f).value| && others(f).value[i].field == "system_mode" ==>
        others(f).value[i].text != ""
  }

  // ----- The decoders -----

  lemma TextsSaySomething(b: Byte)
    ensures FanText(b) != "" && ModeText(b) != ""
  {
  }

  lemma {:induction false} DampersWorded(field: string, p: seq<Byte>, n: nat)
    requires n <= |p| && field != "fan_mode"
    ensures AllWorded(Dampers(field, p, n))
  {
    if n > 0 {
      DampersWorded(field, p, n - 1);
    }
  }

  lemma {:induction false} StateZonesWorded(p: seq<Byte>, n: nat)
    requires |p| >= 29 && n <= 8
    ensures AllWorded(StateZones(p, n))
  {
    if n > 0 {
      StateZonesWorded(p, n - 1);
    }
  }

  lemma {:induction false} ZoneSettingsWorded(p: seq<Byte>, n: nat)
    requires |p| >= 150 && n <= 8
    ensures AllWorded(ZoneSettings(p, n))
  {
    if n > 0 {
      ZoneSettingsWorded(p, n - 1);
    }
  }

  lemma PushWorded(z: int, p: seq<Byte>)
    ensures AllWorded(ZoneConfigPush(z, p))
  {
    if |p| >= 8 {
      TextsSaySomething(p[5]);
    }
  }

  lemma StateWorded(p: seq<Byte>)
    ensures AllWorded(SystemState(p))
  {
    if |p| >= 29 {
      StateZonesWorded(p, 8);
      TextsSaySomething(p[22] & 0x0f);
    }
  }

  lemma DamperReadingsWorded(field: string, p: seq<Byte>)
    requires field != "fan_mode"
    ensures AllWorded(DamperReadings(field, p))
  {
    if |p| >= 8 {
      DampersWorded(field, p, 8);
    }
  }

  lemma SettingsWorded(p: seq<Byte>)
    ensures |p| >= 150 ==> AllWorded(ZoneSettings(p, 8))
    ensures forall z :: AllWorded(ZoneSensorStatus(z, p))
  {
    if |p| >= 150 {
      ZoneSettingsWorded(p, 8);
    }
  }

  lemma UnscopedWorded(f: Frame, others: SystemDecoder)
    requires OthersWorded(others) && others(f).Some?
    ensures AllWorded(Unscoped(others(f).value))
  {
  }

  lemma DispatchWorded(f: Frame, others: SystemDecoder)
    requires OthersWorded(others) && Dispatch(f, others).Some?
    ensures AllWorded(Dispatch(f, others).value)
  {
    var p := f.data[3..];
    if Carries(f, DAMPER_CMD) || Carries(f, DAMPER_POSITION) {
      DamperReadingsWorded("damper_cmd", p);
      DamperReadingsWorded("damper_position", p);
    } else if Carries(f, ZONE_PUSH) {
      PushWorded(ZoneIndex(f.dst), p);
    } else if Carries(f, SAM_STATE) {
      StateWorded(p);
    } else if Carries(f, SAM_ZONES) || Carries(f, ZONE_STATUS) {
      SettingsWorded(p);
    } else {
      UnscopedWorded(f, others);
    }
  }

  // ----- The assembler -----

  lemma {:induction false} MaskWorded(w: World, mask: int, n: nat)
    requires WordedWorld(w)
    ensures WordedWorld(ApplyMask(w, mask, n))
  {
    if n > 0 {
      MaskWorded(w, mask, n - 1);
    }
  }

  lemma ReadingWorded(w: World, r: Reading)
    requires WordedWorld(w) && Worded(r)
    ensures WordedWorld(Apply(w, r))
  {
    if r.zone == 0 {
      MaskWorded(w, Truncate(r.value), MAX_ZONES);
    }
  }

  lemma {:induction false} ReadingsWorded(w: World, rs: seq<Reading>)
    requires WordedWorld(w) && AllWorded(rs)
    ensures WordedWorld(ApplyAll(w, rs))
    decreases |rs|
  {
    if rs != [] {
      ReadingWorded(w, rs[0]);
      ReadingsWorded(Apply(w, rs[0]), rs[1..]);
    }
  }

  /** Whatever frames arrive, every text field of the state says something. */
  lemma {:induction false} StateIsWorded(arrivals: seq<Arrival>, others: SystemDecoder)
    requires OthersWorded(others)
    ensures WordedWorld(After(arrivals, others))
  {
    if arrivals != [] {
      var before, a := arrivals[..|arrivals| - 1], arrivals[|arrivals| - 1];
      StateIsWorded(before, others);
      if Dispatch(a.frame, others).Some? {
        DispatchWorded(a.frame, others);
      }
      ReadingsWorded(After(before, others), ReadingsOf(a.frame, a.ts, others));
    }
  }

  // ----- The exporter -----

  lemma TextEntities(s: Entities.Slot)
    requires Entities.IsSlot(s) && Entities.EntityOf(s).rendering.AsText?
    ensures Entities.EntityOf(s).field == if s.SysSlot? then "system_mode" else "fan_mode"
  {
  }

  /** `snap` is the snapshot of `w` at `now`. */
  ghost predicate IsSnapshot(snap: Snapshot, w: World, now: int) {
    && snap.sys == StaledAll(w.sys, now) && snap.zones.Keys == w.zones.Keys
    && forall z :: z in w.zones ==> snap.zones[z] == StaledAll(w.zones[z], now)
  }

  /** Number formatting always shows something. */
  ghost predicate Shows(format: (Entities.Rendering, real) -> string) {
    forall r, x :: format(r, x) != ""
  }

  /** Every field of a decoded state reaches the broker, whatever the exporter remembers. */
  lemma DecodedReaches(arrivals: seq<Arrival>, others: SystemDecoder, v: View, j: Job, now: int, s: Entities.Slot)
    requires OthersWorded(others) && Shows(j.format) && IsSnapshot(j.snap, After(arrivals, others), now)
    requires j.Covers(s) && j.Present(s)
    ensures j.Payload(s) != "" && Reaches(v, j, s)
  {
    StateIsWorded(arrivals, others);
    if Entities.EntityOf(s).rendering.AsText? {
      TextEntities(s);
    }
  }

  // ----- From readings to topics -----

  /** Every reading the arrivals give, in order. */
  function AllReadings(arrivals: seq<Arrival>, others: SystemDecoder): seq<Reading> {
    if arrivals == [] then []
    else
      var a := arrivals[|arrivals| - 1];
      AllReadings(arrivals[..|arrivals| - 1], others) + ReadingsOf(a.frame, a.ts, others)
  }

  lemma {:induction false} RunMore(rs: seq<Reading>, more: seq<Reading>)
    ensures ApplyAll(Run(rs), more) == Run(rs + more)
    decreases |more|
  {
    if more == [] {
      assert rs + more == rs;
    } else {
      var next := rs + [more[0]];
      assert next[..|rs|] == rs && next + more[1..] == rs + more;
      RunMore(next, more[1..]);
    }
  }

  lemma {:induction false} StateOfReadings(arrivals: seq<Arrival>, others: SystemDecoder)
    ensures After(arrivals, others) == Run(AllReadings(arrivals, others))
  {
    if arrivals != [] {
      var n := |arrivals| - 1;
      StateOfReadings(arrivals[..n], others);
      RunMore(AllReadings(arrivals[..n], others), ReadingsOf(arrivals[n].frame, arrivals[n].ts, others));
    }
  }

  /** A reading is too old to show: after three hours for the wear of filters and the like, else five minutes. */
  predicate TooOld(field: string, age: int) {
    if field == "filter_life_used" || field == "uv_life_used"
       || field == "humidifier_pad_life_used" || field == "vent_filter_life_used"
    then age > 10800 * SECOND
    else age > 300 * SECOND
  }

  /** Staleness is a matter of the field's own patience. */
  lemma StaleExactly(field: string, f: Field, now: int)
    ensures Staled(field, f, now).stale <==> TooOld(field, now - f.ts)
    ensures Staled(field, f, now) == f.(stale := Staled(field, f, now).stale)
  {
  }

  /** What a topic shows for the latest reading of its field. */
  function Displayed(
    format: (Entities.Rendering, real) -> string, e: Entities.Entity, r: Reading, now: int): string
  {
    if TooOld(e.field, now - r.ts) then "None"
    else if e.rendering.AsText? then r.text
    else format(e.rendering, r.value)
  }

  lemma SlotDisplayed(
    arrivals: seq<Arrival>, others: SystemDecoder, v: View, w: View, j: Job, now: int, s: Entities.Slot, r: Reading)
    requires OthersWorded(others) && Shows(j.format) && IsSnapshot(j.snap, After(arrivals, others), now)
    requires Converged(v, w, j) && j.Covers(s)
    requires var fields := if s.SysSlot? then After(arrivals, others).sys else After(arrivals, others).zones[s.z];
             Entities.EntityOf(s).field in fields && fields[Entities.EntityOf(s).field] == ToField(r)
    ensures Get(w.retained, j.TopicOf(s)) == Displayed(j.format, Entities.EntityOf(s), r, now)
  {
    assert j.Present(s);
    DecodedReaches(arrivals, others, v, j, now, s);
    SlotShown(v, w, j, s);
  }

  /** A field of a zone of which every reading counts: not a damper's, and not the countdown. */
  predicate Counts(field: string) {
    !IsDamper(field) && field != "hold_remaining_min"
  }

  /**
   What the broker shows after `rs`: on every system topic the latest reading of its field, on
   every zone topic that of the zone's, and on a damper's the latest since the zone was last
   established; unless it is too old.
   */
  ghost predicate ShowsReadings(
    cfg: Entities.Config, format: (Entities.Rendering, real) -> string, beat: bool,
    rs: seq<Reading>, now: int, retained: map<string, string>)
  {
    && (forall i :: 0 <= i < |Entities.SYS| ==>
          match Latest(rs, 0, Entities.SYS[i].field)
          case Some(r) =>
            Get(retained, Entities.Topic(cfg, Entities.SysSlot(i))) == Displayed(format, Entities.SYS[i], r, now)
          case None => beat ==> Get(retained, Entities.Topic(cfg, Entities.SysSlot(i))) == "None")
    && (forall z, i :: z in Zones(rs) && z != 0 && 0 <= i < |Entities.ZONE| && Counts(Entities.ZONE[i].field) ==>
          match Latest(rs, z, Entities.ZONE[i].field)
          case Some(r) =>
            Get(retained, Entities.Topic(cfg, Entities.ZoneSlot(z, i))) == Displayed(format, Entities.ZONE[i], r, now)
          case None => beat ==> Get(retained, Entities.Topic(cfg, Entities.ZoneSlot(z, i))) == "None")
    && (forall z :: z in Zones(rs) && z != 0 ==>
          match Latest(rs[PresentSince(rs, z)..], z, "damper_position")
          case Some(r) =>
            Get(retained, Entities.Topic(cfg, Entities.ZoneSlot(z, DAMPER))) ==
            Displayed(format, Entities.ZONE[DAMPER], r, now)
          case None => beat ==> Get(retained, Entities.Topic(cfg, Entities.ZoneSlot(z, DAMPER))) == "None")
  }

  const DAMPER: nat := 8

  lemma SystemDisplayed(
    arrivals: seq<Arrival>, others: SystemDecoder, v: View, w: View, j: Job, now: int, i: nat)
    requires OthersWorded(others) && Shows(j.format) && IsSnapshot(j.snap, After(arrivals, others), now)
    requires Converged(v, w, j) && i < |Entities.SYS|
    ensures var topic := Entities.Topic(j.cfg, Entities.SysSlot(i));
            match Latest(AllReadings(arrivals, others), 0, Entities.SYS[i].field)
            case Some(r) => Get(w.retained, topic) == Displayed(j.format, Entities.SYS[i], r, now)
            case None => j.beat ==> Get(w.retained, topic) == "None"
  {
    var rs, s := AllReadings(arrivals, others), Entities.SysSlot(i);
    StateOfReadings(arrivals, others);
    SystemShowsLatest(rs, Entities.SYS[i].field);
    assert j.Covers(s);
    match Latest(rs, 0, Entities.SYS[i].field)
    case Some(r) => SlotDisplayed(arrivals, others, v, w, j, now, s, r);
    case None => assert !j.Present(s);
  }

  lemma ZoneDisplayed(
    arrivals: seq<Arrival>, others: SystemDecoder, v: View, w: View, j: Job, now: int, z: int, i: nat)
    requires OthersWorded(others) && Shows(j.format) && IsSnapshot(j.snap, After(arrivals, others), now)
    requires Converged(v, w, j) && i < |Entities.ZONE| && Counts(Entities.ZONE[i].field)
    requires z in Zones(AllReadings(arrivals, others)) && z != 0
    ensures var topic := Entities.Topic(j.cfg, Entities.ZoneSlot(z, i));
            match Latest(AllReadings(arrivals, others), z, Entities.ZONE[i].field)
            case Some(r) => Get(w.retained, topic) == Displayed(j.format, Entities.ZONE[i], r, now)
            case None => j.beat ==> Get(w.retained, topic) == "None"
  {
    var rs, s := AllReadings(arrivals, others), Entities.ZoneSlot(z, i);
    StateOfReadings(arrivals, others);
    StateIsHistory(rs);
    ZoneShowsLatest(rs, z, Entities.ZONE[i].field);
    assert j.Covers(s);
    match Latest(rs, z, Entities.ZONE[i].field)
    case Some(r) => SlotDisplayed(arrivals, others, v, w, j, now, s, r);
    case None => assert !j.Present(s);
  }

  lemma DamperDisplayed(
    arrivals: seq<Arrival>, others: SystemDecoder, v: View, w: View, j: Job, now: int, z: int)
    requires OthersWorded(others) && Shows(j.format) && IsSnapshot(j.snap, After(arrivals, others), now)
    requires Converged(v, w, j) && z in Zones(AllReadings(arrivals, others)) && z != 0
    ensures var rs, topic := AllReadings(arrivals, others), Entities.Topic(j.cfg, Entities.ZoneSlot(z, DAMPER));
            match Latest(rs[PresentSince(rs, z)..], z, "damper_position")
            case Some(r) => Get(w.retained, topic) == Displayed(j.format, Entities.ZONE[DAMPER], r, now)
            case None => j.beat ==> Get(w.retained, topic) == "None"
  {
    var rs, s := AllReadings(arrivals, others), Entities.ZoneSlot(z, DAMPER);
    StateOfReadings(arrivals, others);
    ZonesShown(rs, z);
    DamperShowsLatest(rs, z, "damper_position");
    Entities.ZoneFields();
    assert j.Covers(s);
    match Latest(rs[PresentSince(rs, z)..], z, "damper_position")
    case Some(r) => SlotDisplayed(arrivals, others, v, w, j, now, s, r);
    case None => assert !j.Present(s);
  }

  lemma ReadingsDisplayed(arrivals: seq<Arrival>, others: SystemDecoder, v: View, w: View, j: Job, now: int)
    requires OthersWorded(others) && Shows(j.format) && IsSnapshot(j.snap, After(arrivals, others), now)
    requires Converged(v, w, j)
    ensures ShowsReadings(j.cfg, j.format, j.beat, AllReadings(arrivals, others), now, w.retained)
  {
    var rs := AllReadings(arrivals, others);
    forall i: nat | i < |Entities.SYS|
      ensures match Latest(rs, 0, Entities.SYS[i].field)
              case Some(r) =>
                Get(w.retained, Entities.Topic(j.cfg, Entities.SysSlot(i))) ==
                Displayed(j.format, Entities.SYS[i], r, now)
              case None => j.beat ==> Get(w.retained, Entities.Topic(j.cfg, Entities.SysSlot(i))) == "None"
    {
      SystemDisplayed(arrivals, others, v, w, j, now, i);
    }
    forall z, i: nat | z in Zones(rs) && z != 0 && i < |Entities.ZONE| && Counts(Entities.ZONE[i].field)
      ensures match Latest(rs, z, Entities.ZONE[i].field)
              case Some(r) =>
                Get(w.retained, Entities.Topic(j.cfg, Entities.ZoneSlot(z, i))) ==
                Displayed(j.format, Entities.ZONE[i], r, now)
              case None => j.beat ==> Get(w.retained, Entities.Topic(j.cfg, Entities.ZoneSlot(z, i))) == "None"
    {
      ZoneDisplayed(arrivals, others, v, w, j, now, z, i);
    }
    forall z | z in Zones(rs) && z != 0
      ensures match Latest(rs[PresentSince(rs, z)..], z, "damper_position")
              case Some(r) =>
                Get(w.retained, Entities.Topic(j.cfg, Entities.ZoneSlot(z, DAMPER))) ==
                Displayed(j.format, Entities.ZONE[DAMPER], r, now)
              case None => j.beat ==> Get(w.retained, Entities.Topic(j.cfg, Entities.ZoneSlot(z, DAMPER))) == "None"
    {
      DamperDisplayed(arrivals, others, v, w, j, now, z);
    }
  }

  /**
   End to end: frames are decoded and applied, and the state is published. If no publish fails,
   the broker shows on every topic the latest reading that the frames gave for it, or "None" if
   that is too old or, on a beat, if there is none.
   */
  method Show(arrivals: seq<Arrival>, others: SystemDecoder, e: Exporter, now: int) returns (ghost j: Job)
    requires e.Valid() && OthersWorded(others) && Shows(e.format)
    modifies e`last, e`touched, e`lastBeat, e.broker
    ensures e.Valid() && j.cfg == e.cfg && j.format == e.format && j.beat == old(e.IsBeat(e.lastBeat, now))
    ensures IsSnapshot(j.snap, After(arrivals, others), now)
    ensures AllOk(old(e.Look()), e.Look()) && j.Distinct() ==>
      && ShowsReadings(e.cfg, e.format, j.beat, AllReadings(arrivals, others), now, e.broker.retained)
      && forall s :: j.Covers(s) && j.Present(s) ==> Get(e.broker.retained, j.TopicOf(s)) == j.Payload(s) != ""
  {
    var state := Follow(arrivals, others);
    var snap := state.TakeSnapshot(now);
    ghost var v := e.Look();
    j := e.PublishState(snap, now);
    if AllOk(v, e.Look()) && j.Distinct() {
      ReadingsDisplayed(arrivals, others, v, e.Look(), j, now);
      forall s | j.Covers(s) && j.Present(s) ensures j.Payload(s) != "" && Reaches(v, j, s) {
        DecodedReaches(arrivals, others, v, j, now, s);
      }
    }
  }
}
