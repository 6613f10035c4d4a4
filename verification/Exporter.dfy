/**
 The MQTT exporter of mqtt/exporter.go: change detection over a transport that may lose
 any publish, proved to keep the broker's retained map where publishing everything would.
 */
module Exporters {
  import opened Basics
  import opened Entities
  import opened Snapshots

  const HEARTBEAT := 60 * SECOND
  const NONE := "None"

  // ----- The broker -----

  /** One publish and whether it got through. */
  datatype Send = Send(topic: string, payload: string, ok: bool)

  /** A retained publish; an empty payload deletes (MQTT 3.1.1, section 3.3.1.3). */
  function Retain(m: map<string, string>, topic: string, payload: string): map<string, string> {
    if payload == "" then m - {topic} else m[topic := payload]
  }

  /** Go's map read: a missing key is the empty string. So is a topic with nothing retained. */
  function Get(m: map<string, string>, topic: string): string {
    if topic in m then m[topic] else ""
  }

  class Broker {
    var retained: map<string, string>
    var sends: seq<Send>

    constructor (retained: map<string, string>)
      ensures this.retained == retained && sends == []
    {
      this.retained := retained;
      sends := [];
    }

    method Publish(topic: string, payload: string) returns (ok: bool)
      modifies this
      ensures sends == old(sends) + [Send(topic, payload, ok)]
      ensures retained == if ok then Retain(old(retained), topic, payload) else old(retained)
    {
      ok := *;
      sends := sends + [Send(topic, payload, ok)];
      if ok {
        retained := Retain(retained, topic, payload);
      }
    }
  }

  // ----- What one publish does -----

  /**
   The exporter and the broker together: the exporter's memory, the retained map, the
   topics successfully published since New or Reassert, and every publish so far.
   */
  datatype View = View(
    last: map<string, string>, retained: map<string, string>, touched: set<string>, sends: seq<Send>)

  function Failed(sends: seq<Send>): nat {
    if sends == [] then 0
    else Failed(sends[..|sends| - 1]) + (if sends[|sends| - 1].ok then 0 else 1)
  }

  function SentTo(sends: seq<Send>, topic: string): nat {
    if sends == [] then 0
    else SentTo(sends[..|sends| - 1], topic) + (if sends[|sends| - 1].topic == topic then 1 else 0)
  }

  /** No publish has failed between two views. */
  predicate AllOk(v: View, w: View) {
    Failed(w.sends) == Failed(v.sends)
  }

  /** Publish and, if it gets through, remember. */
  function Remember(v: View, topic: string, payload: string, ok: bool): View {
    var sends := v.sends + [Send(topic, payload, ok)];
    if ok then View(v.last[topic := payload], Retain(v.retained, topic, payload), v.touched + {topic}, sends)
    else v.(sends := sends)
  }

  /** `publishField`: publish unless remembered, or always when forced. */
  function PublishStep(v: View, topic: string, payload: string, force: bool, ok: bool): View {
    if !force && Get(v.last, topic) == payload then v else Remember(v, topic, payload, ok)
  }

  /** The retraction of a topic: publish "None" and, if it gets through, forget. */
  function RetractStep(v: View, topic: string, ok: bool): View {
    var w := Remember(v, topic, NONE, ok);
    if ok then w.(last := v.last - {topic}) else w
  }

  /** What the exporter remembers is retained; what it has forgotten is retained as "None". */
  ghost predicate Synced(v: View) {
    && (forall t :: t in v.last ==> t in v.touched && Get(v.retained, t) == v.last[t])
    && (forall t :: t in v.touched && t !in v.last ==> Get(v.retained, t) == NONE)
  }

  /** Nothing about a topic has changed between two views. */
  ghost predicate SameAt(v: View, w: View, t: string) {
    && (t in v.last <==> t in w.last) && Get(v.last, t) == Get(w.last, t)
    && Get(v.retained, t) == Get(w.retained, t)
    && (t in v.touched <==> t in w.touched)
    && SentTo(v.sends, t) == SentTo(w.sends, t)
  }

  /** A topic is as one successful `publishField` leaves it. */
  ghost predicate PublishedAt(v: View, w: View, t: string, payload: string, force: bool) {
    if !force && Get(v.last, t) == payload then SameAt(v, w, t)
    else
      && t in w.last && w.last[t] == payload && t in w.touched
      && Get(w.retained, t) == payload
      && SentTo(w.sends, t) == SentTo(v.sends, t) + 1
  }

  /** A topic is as a successful retraction leaves it. */
  ghost predicate RetractedAt(v: View, w: View, t: string) {
    && t !in w.last && t in w.touched && Get(w.retained, t) == NONE
    && SentTo(w.sends, t) == SentTo(v.sends, t) + 1
  }

  lemma AppendCounts(sends: seq<Send>, s: Send, t: string)
    ensures Failed(sends + [s]) == Failed(sends) + (if s.ok then 0 else 1)
    ensures SentTo(sends + [s], t) == SentTo(sends, t) + (if s.topic == t then 1 else 0)
  {
    assert (sends + [s])[..|sends|] == sends;
  }

  /** Only topics of `ts` have changed. */
  ghost predicate OnlyAt(v: View, w: View, ts: set<string>) {
    forall t :: t !in ts ==> SameAt(v, w, t)
  }

  /** A step from `v` to `w` that may change `topic` only, keeping the exporter in sync. */
  ghost predicate StepsAt(v: View, w: View, topic: string) {
    Synced(w) && Failed(v.sends) <= Failed(w.sends) && OnlyAt(v, w, {topic})
  }

  /** A publish to one topic leaves another as it is. */
  lemma RememberElsewhere(v: View, topic: string, payload: string, ok: bool, t: string)
    requires t != topic
    ensures SameAt(v, Remember(v, topic, payload, ok), t) && SameAt(v, RetractStep(v, topic, ok), t)
  {
    AppendCounts(v.sends, Send(topic, payload, ok), t);
    AppendCounts(v.sends, Send(topic, NONE, ok), t);
  }

  /** Where nothing but `topic` changes, being in sync is a matter of `topic` alone. */
  lemma SyncedAt(v: View, w: View, topic: string)
    requires Synced(v) && OnlyAt(v, w, {topic})
    requires topic in w.last ==> topic in w.touched && Get(w.retained, topic) == w.last[topic]
    requires topic in w.touched && topic !in w.last ==> Get(w.retained, topic) == NONE
    ensures Synced(w)
  {
    forall t
      ensures t in w.last ==> t in w.touched && Get(w.retained, t) == w.last[t]
      ensures t in w.touched && t !in w.last ==> Get(w.retained, t) == NONE
    {
      if t != topic {
        assert SameAt(v, w, t);
      }
    }
  }

  /** What is retained on a topic never published is no matter. */
  lemma RetainedElsewhere(v: View, topic: string, payload: string)
    requires Synced(v) && topic !in v.touched
    ensures forall sends :: Synced(View(v.last, Retain(v.retained, topic, payload), v.touched, sends))
    ensures forall sends :: Synced(View(v.last, v.retained, v.touched, sends))
  {
  }

  lemma PublishStepAt(v: View, topic: string, payload: string, force: bool, ok: bool)
    requires Synced(v)
    ensures var w := PublishStep(v, topic, payload, force, ok);
            StepsAt(v, w, topic) && (AllOk(v, w) ==> PublishedAt(v, w, topic, payload, force))
  {
    var w := PublishStep(v, topic, payload, force, ok);
    if w != v {
      AppendCounts(v.sends, Send(topic, payload, ok), topic);
      forall t | t != topic ensures SameAt(v, w, t) {
        RememberElsewhere(v, topic, payload, ok, t);
      }
      SyncedAt(v, w, topic);
    }
  }

  lemma RetractStepAt(v: View, topic: string, ok: bool)
    requires Synced(v)
    ensures var w := RetractStep(v, topic, ok);
            StepsAt(v, w, topic) && (AllOk(v, w) ==> RetractedAt(v, w, topic))
  {
    var w := RetractStep(v, topic, ok);
    AppendCounts(v.sends, Send(topic, NONE, ok), topic);
    forall t | t != topic ensures SameAt(v, w, t) {
      RememberElsewhere(v, topic, NONE, ok, t);
    }
    SyncedAt(v, w, topic);
  }

  // ----- One PublishState call -----

  /** The inputs of a `PublishState` call; `format` stands for Go's number formatting. */
  datatype Job = Job(cfg: Config, format: (Rendering, real) -> string, snap: Snapshot, beat: bool) {

    /** The slots a call looks at: the system's, and those of every zone of the snapshot. */
    predicate Covers(s: Slot) {
      Entities.Covers(snap.zones.Keys, s)
    }

    function FieldOf(s: Slot): Option<Field>
      requires Covers(s)
    {
      var fields := if s.SysSlot? then snap.sys else snap.zones[s.z];
      var f := EntityOf(s).field;
      if f in fields then Some(fields[f]) else None
    }

    predicate Present(s: Slot)
      requires Covers(s)
    {
      FieldOf(s).Some?
    }

    /** What publishing everything would show for a slot: its rendered field, or "None". */
    function Payload(s: Slot): string
      requires Covers(s)
    {
      match FieldOf(s)
      case None => NONE
      case Some(f) =>
        if f.stale then NONE
        else if EntityOf(s).rendering.AsText? then f.text
        else format(EntityOf(s).rendering, f.value)
    }

    function TopicOf(s: Slot): string
      requires Covers(s)
    {
      Topic(cfg, s)
    }

    predicate Handled(s: Slot)
      requires Covers(s)
    {
      Present(s) || beat
    }

    predicate Forced(s: Slot)
      requires Covers(s)
    {
      Present(s) && beat
    }

    ghost predicate Distinct() {
      DistinctNames(cfg, snap.zones.Keys)
    }

    /** The topic belongs to a field of the snapshot. */
    ghost predicate Shows(t: string) {
      exists s :: Covers(s) && Present(s) && TopicOf(s) == t
    }
  }

  /** The topics produced by the slots of `done`. */
  ghost function Produced(j: Job, done: set<Slot>): set<string>
    requires forall s :: s in done ==> j.Covers(s)
  {
    set s | s in done && j.Handled(s) :: j.TopicOf(s)
  }

  /** From `v` to `w`, exactly the slots of `done` have been published. */
  ghost predicate Published(v: View, w: View, j: Job, done: set<Slot>)
    requires forall s :: s in done ==> j.Covers(s)
  {
    && Synced(w) && Failed(v.sends) <= Failed(w.sends) && OnlyAt(v, w, Produced(j, done))
    && (AllOk(v, w) && j.Distinct() ==> forall s :: s in done && j.Handled(s) ==>
          PublishedAt(v, w, j.TopicOf(s), j.Payload(s), j.Forced(s)))
  }

  lemma ProducedNext(j: Job, done: set<Slot>, s: Slot)
    requires (forall r :: r in done ==> j.Covers(r)) && j.Covers(s)
    ensures Produced(j, done + {s}) == Produced(j, done) + (if j.Handled(s) then {j.TopicOf(s)} else {})
  {
  }

  lemma ProducedApart(j: Job, done: set<Slot>, s: Slot)
    requires (forall r :: r in done ==> j.Covers(r)) && j.Covers(s) && s !in done && j.Distinct()
    ensures j.TopicOf(s) !in Produced(j, done)
  {
    forall r | r in done && j.Handled(r) ensures j.TopicOf(r) != j.TopicOf(s) {
      if j.TopicOf(r) == j.TopicOf(s) {
        TopicsDistinct(j.cfg, j.snap.zones.Keys, r, s);
      }
    }
  }

  /** Publishing one more slot, seen from outside the step. */
  lemma PublishNext(v: View, w: View, x: View, j: Job, done: set<Slot>, s: Slot)
    requires (forall r :: r in done ==> j.Covers(r)) && j.Covers(s) && s !in done
    requires Published(v, w, j, done)
    requires if j.Handled(s) then
               && StepsAt(w, x, j.TopicOf(s))
               && (AllOk(w, x) ==> PublishedAt(w, x, j.TopicOf(s), j.Payload(s), j.Forced(s)))
             else x == w
    ensures Published(v, x, j, done + {s})
  {
    ProducedNext(j, done, s);
    if j.Handled(s) && AllOk(v, x) && j.Distinct() {
      ProducedApart(j, done, s);
      assert SameAt(v, w, j.TopicOf(s));
      forall r | r in done && j.Handled(r)
        ensures PublishedAt(v, x, j.TopicOf(r), j.Payload(r), j.Forced(r))
      {
        assert j.TopicOf(r) in Produced(j, done);
        assert SameAt(w, x, j.TopicOf(r));
      }
    }
  }

  /** The topics the retraction pass of a call sends "None" to. */
  predicate Retractable(v: View, produced: set<string>, t: string) {
    t in v.last && t !in produced && v.last[t] != NONE
  }

  /** From `v` to `w`, exactly the retractable topics of `seen` have been retracted. */
  ghost predicate Retracted(v: View, w: View, produced: set<string>, seen: set<string>) {
    && Synced(w) && Failed(v.sends) <= Failed(w.sends)
    && (forall t :: !(t in seen && Retractable(v, produced, t)) ==> SameAt(v, w, t))
    && (AllOk(v, w) ==> forall t :: t in seen && Retractable(v, produced, t) ==> RetractedAt(v, w, t))
  }

  lemma RetractNext(v: View, w: View, x: View, produced: set<string>, seen: set<string>, topic: string)
    requires Retracted(v, w, produced, seen) && topic !in seen
    requires if Retractable(v, produced, topic) then
               StepsAt(w, x, topic) && (AllOk(w, x) ==> RetractedAt(w, x, topic))
             else x == w
    ensures Retracted(v, x, produced, seen + {topic})
  {
    assert SameAt(v, w, topic);
    forall t | !(t in seen + {topic} && Retractable(v, produced, t)) ensures SameAt(v, x, t) {
      if t != topic {
        assert SameAt(v, w, t) && (x == w || SameAt(w, x, t));
      }
    }
    if AllOk(v, x) {
      forall t | t in seen && Retractable(v, produced, t) ensures RetractedAt(v, x, t) {
        assert RetractedAt(v, w, t) && (x == w || SameAt(w, x, t));
      }
    }
  }

  // ----- What a call achieves -----

  /** Change detection takes a missing memory for an empty payload, and so never sends it. */
  predicate Reaches(v: View, j: Job, s: Slot)
    requires j.Covers(s)
  {
    j.Payload(s) != "" || j.beat || j.TopicOf(s) in v.last
  }

  /**
   The broker shows what publishing everything would: every field of the snapshot that
   reaches it, and "None" on every other topic ever published; on a beat, also "None" for
   every absent field of the system and of the zones of the snapshot. A field that does
   not reach the broker leaves its topic as it was.
   */
  ghost predicate Converged(v: View, w: View, j: Job) {
    && (forall s :: j.Covers(s) && j.Present(s) ==>
          Get(w.retained, j.TopicOf(s)) == if Reaches(v, j, s) then j.Payload(s) else Get(v.retained, j.TopicOf(s)))
    && (forall t :: t in w.touched && !j.Shows(t) ==> Get(w.retained, t) == NONE)
    && (j.beat ==> forall s :: j.Covers(s) && !j.Present(s) ==> Get(w.retained, j.TopicOf(s)) == NONE)
  }

  /** The exporter's memory already has every field of the snapshot, and "None" elsewhere. */
  ghost predicate Settled(v: View, j: Job) {
    && (forall s :: j.Covers(s) && j.Present(s) ==> Get(v.last, j.TopicOf(s)) == j.Payload(s))
    && (forall t :: t in v.last && !j.Shows(t) ==> v.last[t] == NONE)
  }

  /** How many more times a topic whose field stays absent can be sent "None". */
  function Budget(v: View, t: string): nat {
    if t !in v.last then 1 else if v.last[t] == NONE then 0 else 2
  }

  /** A call charges every topic whose field is absent for what it sends there. */
  ghost predicate Charged(v: View, w: View, j: Job) {
    forall t :: !j.Shows(t) ==> SentTo(w.sends, t) + Budget(w, t) <= SentTo(v.sends, t) + Budget(v, t)
  }

  /** A call, seen as its publishing pass from `v` to `w` and its retraction pass to `x`. */
  ghost predicate Passes(v: View, w: View, x: View, j: Job, all: set<Slot>) {
    && Synced(v) && (forall s :: s in all <==> j.Covers(s))
    && Published(v, w, j, all) && Retracted(w, x, Produced(j, all), w.last.Keys)
    && AllOk(v, x) && j.Distinct()
  }

  lemma PassesOk(v: View, w: View, x: View, j: Job, all: set<Slot>)
    requires Passes(v, w, x, j, all)
    ensures AllOk(v, w) && AllOk(w, x)
  {
  }

  /** A topic of the snapshot, after both passes. */
  lemma PresentAfter(v: View, w: View, x: View, j: Job, all: set<Slot>, s: Slot)
    requires Passes(v, w, x, j, all) && j.Covers(s) && j.Handled(s)
    ensures PublishedAt(v, x, j.TopicOf(s), j.Payload(s), j.Forced(s))
    ensures Get(x.last, j.TopicOf(s)) == j.Payload(s)
    ensures Get(x.retained, j.TopicOf(s)) == if Reaches(v, j, s) then j.Payload(s) else Get(v.retained, j.TopicOf(s))
  {
    PassesOk(v, w, x, j, all);
    var t := j.TopicOf(s);
    assert t in Produced(j, all);
    assert SameAt(w, x, t);
    assert PublishedAt(v, w, t, j.Payload(s), j.Forced(s));
  }

  /** Any other topic, after both passes. */
  lemma AbsentAfter(v: View, w: View, x: View, j: Job, all: set<Slot>, t: string)
    requires Passes(v, w, x, j, all) && !j.Shows(t)
    ensures t in x.touched ==> Get(x.retained, t) == NONE
    ensures t in x.last ==> x.last[t] == NONE
    ensures SentTo(x.sends, t) + Budget(x, t) <= SentTo(v.sends, t) + Budget(v, t)
  {
    PassesOk(v, w, x, j, all);
    if t in Produced(j, all) {
      var s :| s in all && j.Handled(s) && j.TopicOf(s) == t;
      PresentAfter(v, w, x, j, all, s);
      assert !j.Present(s);
    } else if Retractable(w, Produced(j, all), t) {
      assert SameAt(v, w, t) && RetractedAt(w, x, t);
    } else {
      assert SameAt(v, w, t) && SameAt(w, x, t);
    }
  }

  lemma CallAchieves(v: View, w: View, x: View, j: Job, all: set<Slot>)
    requires Passes(v, w, x, j, all)
    ensures Converged(v, x, j) && Settled(x, j) && Charged(v, x, j) && Resent(v, x, j)
  {
    forall s | j.Covers(s) && j.Handled(s)
      ensures j.Forced(s) ==> SentTo(x.sends, j.TopicOf(s)) == SentTo(v.sends, j.TopicOf(s)) + 1
      ensures Get(x.last, j.TopicOf(s)) == j.Payload(s)
      ensures Get(x.retained, j.TopicOf(s)) == if Reaches(v, j, s) then j.Payload(s) else Get(v.retained, j.TopicOf(s))
    {
      PresentAfter(v, w, x, j, all, s);
    }
    forall t | !j.Shows(t)
      ensures t in x.touched ==> Get(x.retained, t) == NONE
      ensures t in x.last ==> x.last[t] == NONE
      ensures SentTo(x.sends, t) + Budget(x, t) <= SentTo(v.sends, t) + Budget(v, t)
    {
      AbsentAfter(v, w, x, j, all, t);
    }
  }

  /** Whether a call is on the beat has no say in which topics it shows. */
  lemma ShowsOffBeat(j: Job, t: string)
    requires j.Shows(t)
    ensures j.(beat := false).Shows(t)
  {
    var s :| j.Covers(s) && j.Present(s) && j.TopicOf(s) == t;
    var k := j.(beat := false);
    assert k.Covers(s) && k.Present(s) && k.TopicOf(s) == t;
  }

  /** Nor in what there is to remember. */
  lemma SettledOffBeat(v: View, j: Job)
    requires Settled(v, j)
    ensures Settled(v, j.(beat := false))
  {
    var k := j.(beat := false);
    forall s | k.Covers(s) && k.Present(s) ensures Get(v.last, k.TopicOf(s)) == k.Payload(s) {
      assert j.Covers(s) && j.Present(s) && j.TopicOf(s) == k.TopicOf(s) && j.Payload(s) == k.Payload(s);
    }
    forall t | t in v.last && j.Shows(t) ensures k.Shows(t) {
      ShowsOffBeat(j, t);
    }
  }

  /** What a topic shows of field `f` of entity `e`, as far as change detection lets it through. */
  ghost predicate ShowsField(j: Job, v: View, w: View, e: Entity, topic: string, f: Field) {
    var shown, sent := Get(w.retained, topic), j.beat || topic in v.last;
    && (f.stale ==> shown == "None")
    && (!f.stale && e.rendering == AsText && (f.text != "" || sent) ==> shown == f.text)
    && (!f.stale && e.rendering != AsText && (j.format(e.rendering, f.value) != "" || sent) ==>
          shown == j.format(e.rendering, f.value))
  }

  /** Every topic of the snapshot shows its field: "None" if stale, else its text or its number. */
  ghost predicate ShowsFields(j: Job, v: View, w: View) {
    && (forall i :: 0 <= i < |SYS| && SYS[i].field in j.snap.sys ==>
          ShowsField(j, v, w, SYS[i], Topic(j.cfg, SysSlot(i)), j.snap.sys[SYS[i].field]))
    && (forall z, i :: z in j.snap.zones && 0 <= i < |ZONE| && ZONE[i].field in j.snap.zones[z] ==>
          ShowsField(j, v, w, ZONE[i], Topic(j.cfg, ZoneSlot(z, i)), j.snap.zones[z][ZONE[i].field]))
  }

  lemma SlotShown(v: View, w: View, j: Job, s: Slot)
    requires Converged(v, w, j) && j.Covers(s) && j.Present(s)
    ensures ShowsField(j, v, w, EntityOf(s), Topic(j.cfg, s), j.FieldOf(s).value)
  {
    assert j.TopicOf(s) == Topic(j.cfg, s);
  }

  lemma FieldsShown(v: View, w: View, j: Job)
    requires Converged(v, w, j)
    ensures ShowsFields(j, v, w)
  {
    forall i | 0 <= i < |SYS| && SYS[i].field in j.snap.sys
      ensures ShowsField(j, v, w, SYS[i], Topic(j.cfg, SysSlot(i)), j.snap.sys[SYS[i].field])
    {
      SlotShown(v, w, j, SysSlot(i));
    }
    forall z, i | z in j.snap.zones && 0 <= i < |ZONE| && ZONE[i].field in j.snap.zones[z]
      ensures ShowsField(j, v, w, ZONE[i], Topic(j.cfg, ZoneSlot(z, i)), j.snap.zones[z][ZONE[i].field])
    {
      SlotShown(v, w, j, ZoneSlot(z, i));
    }
  }

  /** On a beat every field of the snapshot is sent, once, whatever is remembered. */
  ghost predicate Resent(v: View, w: View, j: Job) {
    j.beat ==> forall s :: j.Covers(s) && j.Present(s) ==>
      SentTo(w.sends, j.TopicOf(s)) == SentTo(v.sends, j.TopicOf(s)) + 1
  }

  /** Of the topics published before, exactly those that are reached show their field. */
  lemma ShownExactlyIfReached(v: View, w: View, j: Job, s: Slot)
    requires Synced(v) && Converged(v, w, j) && j.Covers(s) && j.Present(s) && j.TopicOf(s) in v.touched
    ensures Get(w.retained, j.TopicOf(s)) == j.Payload(s) <==> Reaches(v, j, s)
  {
  }

  const SYSTEM_MODE: nat := 25

  /**
   A field that does not reach the broker: the topic of `system_mode` was retracted, its text is
   now empty, and it is not a beat. The publish is skipped and "None" stays retained.
   */
  lemma EmptyTextMissed(cfg: Config, format: (Rendering, real) -> string, ok: bool)
    ensures var s, snap := SysSlot(SYSTEM_MODE), Snapshot(map["system_mode" := Field(0.0, "", 0, false)], map[]);
            var t, j := Topic(cfg, s), Job(cfg, format, snap, false);
            var v := View(map[], map[t := NONE], {t}, []);
            && Synced(v) && j.Covers(s) && j.Present(s) && !Reaches(v, j, s)
            && PublishStep(v, t, j.Payload(s), j.Forced(s), ok) == v
            && Get(v.retained, t) == NONE != j.Payload(s)
  {
    assert SYS[SYSTEM_MODE] == Entity("system_mode", "system_mode", "", AsText);
  }

  // ----- Implementation -----

  datatype Health = Health(
    framesPerMin: real, unknownFrames: real, samFailures: real, busOnline: bool,
    faultActive: bool, faultCount: real, lastFault: string)

  function OnOff(b: bool): string { if b then "ON" else "OFF" }

  /** What each health topic is to show, in the order of `HEALTH`. */
  function HealthPayload(format: (Rendering, real) -> string, h: Health, i: nat): string
    requires i < |HEALTH|
  {
    match i
    case 0 => format(Trimmed, h.framesPerMin)
    case 1 => format(Trimmed, h.unknownFrames)
    case 2 => format(Trimmed, h.samFailures)
    case 3 => format(Trimmed, h.faultCount)
    case 4 => if h.lastFault == "" then NONE else h.lastFault
    case 5 => OnOff(h.faultActive)
    case _ => OnOff(h.busOnline)
  }

  ghost predicate IsStateTopic(cfg: Config, t: string) {
    exists s :: IsSlot(s) && Topic(cfg, s) == t
  }

  ghost predicate IsHealthTopic(cfg: Config, t: string) {
    exists i: nat :: i < |HEALTH| && HealthTopic(cfg, i) == t
  }

  /** No topic but health topics has been sent to or has changed. */
  ghost predicate OnlyHealth(cfg: Config, v: View, w: View) {
    forall t :: !IsHealthTopic(cfg, t) ==>
      Get(v.retained, t) == Get(w.retained, t) && SentTo(v.sends, t) == SentTo(w.sends, t)
  }

  lemma HealthIsNotState(cfg: Config, t: string)
    requires IsHealthTopic(cfg, t)
    ensures !IsStateTopic(cfg, t)
  {
    var i: nat :| i < |HEALTH| && HealthTopic(cfg, i) == t;
    forall s | IsSlot(s) ensures Topic(cfg, s) != t {
      HealthTopicsApart(cfg, i, s);
    }
  }

  ghost function SysSlots(n: nat): (r: set<Slot>)
    ensures forall s :: s in r <==> s.SysSlot? && s.i < n
  {
    if n == 0 then {} else SysSlots(n - 1) + {SysSlot(n - 1)}
  }

  ghost function ZoneSlots(z: int, n: nat): (r: set<Slot>)
    ensures forall s :: s in r <==> s.ZoneSlot? && s.z == z && s.i < n
  {
    if n == 0 then {} else ZoneSlots(z, n - 1) + {ZoneSlot(z, n - 1)}
  }

  lemma RetractedAll(v: View, w: View, produced: set<string>, seen: set<string>)
    requires Retracted(v, w, produced, seen) && v.last.Keys <= seen
    ensures Retracted(v, w, produced, v.last.Keys)
  {
  }

  /** With nothing new in the snapshot, off the beat, there is nothing to retract. */
  lemma NothingToRetract(v: View, j: Job, all: set<Slot>)
    requires (forall s :: s in all <==> j.Covers(s)) && !j.beat && Settled(v, j)
    ensures forall t :: !Retractable(v, Produced(j, all), t)
  {
    forall s | j.Covers(s) && j.Present(s) ensures j.TopicOf(s) in Produced(j, all) {
      assert s in all && j.Handled(s);
    }
  }

  /** A call only ever touches state topics. */
  lemma StaysOnState(v: View, w: View, x: View, j: Job, all: set<Slot>)
    requires Synced(v) && (forall s :: s in all ==> j.Covers(s)) && Published(v, w, j, all)
    requires Retracted(w, x, Produced(j, all), w.last.Keys)
    requires forall t :: t in v.touched ==> IsStateTopic(j.cfg, t)
    ensures forall t :: t in x.touched ==> IsStateTopic(j.cfg, t)
    ensures forall t :: IsHealthTopic(j.cfg, t) ==> Get(x.retained, t) == Get(v.retained, t)
  {
    forall t | t in Produced(j, all) || t in v.touched ensures IsStateTopic(j.cfg, t) {
      if t in Produced(j, all) {
        var s :| s in all && j.Handled(s) && j.TopicOf(s) == t;
        assert IsSlot(s) && Topic(j.cfg, s) == t;
      }
    }
    forall t | t in x.touched ensures IsStateTopic(j.cfg, t) {
      if t !in Produced(j, all) {
        assert SameAt(v, w, t);
        assert t in w.last || SameAt(w, x, t);
      }
    }
    forall t | IsHealthTopic(j.cfg, t) ensures Get(x.retained, t) == Get(v.retained, t) {
      HealthIsNotState(j.cfg, t);
      assert SameAt(v, w, t);
      assert SameAt(w, x, t);
    }
  }

  class Exporter {
    const broker: Broker
    const cfg: Config
    const format: (Rendering, real) -> string
    var last: map<string, string>
    var lastHealth: map<string, string>
    var lastBeat: Instant
    var lastHealthBeat: Instant
    ghost var touched: set<string>

    /** The state half of the exporter. */
    ghost function Look(): View
      reads this, broker
    {
      View(last, broker.retained, touched, broker.sends)
    }

    /** The health half; it never forgets a topic. */
    ghost function LookHealth(): View
      reads this, broker
    {
      View(lastHealth, broker.retained, lastHealth.Keys, broker.sends)
    }

    ghost predicate Valid()
      reads this, broker
    {
      && Synced(Look()) && Synced(LookHealth())
      && (forall t :: t in touched ==> IsStateTopic(cfg, t))
      && (forall t :: t in lastHealth ==> IsHealthTopic(cfg, t))
    }

    /** `New`: whatever an earlier process left retained. */
    constructor (broker: Broker, cfg: Config, format: (Rendering, real) -> string)
      ensures this.broker == broker && this.cfg == cfg && this.format == format
      ensures Valid() && touched == {} && last == map[] && lastBeat == Zero && lastHealthBeat == Zero
    {
      this.broker, this.cfg, this.format := broker, cfg, format;
      last, lastHealth, lastBeat, lastHealthBeat, touched := map[], map[], Zero, Zero, {};
    }

    /** `Reassert`: valid again whatever the broker has lost meanwhile. */
    method Reassert()
      modifies this
      ensures Valid() && touched == {} && last == map[] && lastHealth == map[]
      ensures lastBeat == Zero && lastHealthBeat == Zero
    {
      last, lastHealth, lastBeat, lastHealthBeat, touched := map[], map[], Zero, Zero, {};
    }

    predicate IsBeat(since: Instant, now: int) {
      since.Zero? || now - since.t >= HEARTBEAT
    }

    /** `publishField`, for a rendered payload. */
    method PublishField(topic: string, payload: string, force: bool) returns (ghost ok: bool)
      modifies this`last, this`touched, broker
      ensures Look() == PublishStep(old(Look()), topic, payload, force, ok)
    {
      ok := true;
      if !force && Get(last, topic) == payload {
        return;
      }
      var sent := broker.Publish(topic, payload);
      ok := sent;
      if sent {
        last := last[topic := payload];
        touched := touched + {topic};
      }
    }

    /** One turn of the two table loops: publish a slot, or on a beat its absence. */
    method PublishSlot(j: Job, s: Slot, produced: set<string>, ghost v: View, ghost done: set<Slot>)
      returns (made: set<string>)
      requires j.cfg == cfg && (forall r :: r in done ==> j.Covers(r)) && j.Covers(s) && s !in done
      requires Synced(Look()) && Published(v, Look(), j, done) && produced == Produced(j, done)
      modifies this`last, this`touched, broker
      ensures Published(v, Look(), j, done + {s}) && made == Produced(j, done + {s})
      ensures !j.beat && Settled(old(Look()), j) ==> Look() == old(Look())
    {
      made := produced;
      ghost var w := Look();
      ProducedNext(j, done, s);
      match j.FieldOf(s) {
        case Some(f) =>
          ghost var ok := PublishField(j.TopicOf(s), j.Payload(s), j.beat);
          PublishStepAt(w, j.TopicOf(s), j.Payload(s), j.Forced(s), ok);
          made := made + {j.TopicOf(s)};
        case None =>
          if j.beat {
            ghost var ok := PublishField(j.TopicOf(s), NONE, false);
            PublishStepAt(w, j.TopicOf(s), j.Payload(s), j.Forced(s), ok);
            made := made + {j.TopicOf(s)};
          }
      }
      PublishNext(v, w, Look(), j, done, s);
    }

    /** The system loop of `PublishState`. */
    method PublishSystem(j: Job) returns (produced: set<string>, ghost done: set<Slot>)
      requires j.cfg == cfg && Synced(Look())
      modifies this`last, this`touched, broker
      ensures done == SysSlots(|SYS|) && produced == Produced(j, done)
      ensures Published(old(Look()), Look(), j, done)
      ensures !j.beat && Settled(old(Look()), j) ==> Look() == old(Look())
    {
      produced, done := {}, {};
      ghost var v := Look();
      for i := 0 to |SYS|
        invariant done == SysSlots(i)
        invariant Published(v, Look(), j, done) && produced == Produced(j, done)
        invariant !j.beat && Settled(v, j) ==> Look() == v
      {
        produced := PublishSlot(j, SysSlot(i), produced, v, done);
        done := done + {SysSlot(i)};
      }
    }

    /** The inner zone loop. */
    method PublishZone(j: Job, z: int, before: set<string>, ghost v: View, ghost start: set<Slot>)
      returns (produced: set<string>)
      requires j.cfg == cfg && z in j.snap.zones && start !! ZoneSlots(z, |ZONE|)
      requires (forall s :: s in start ==> j.Covers(s)) && Published(v, Look(), j, start)
      requires before == Produced(j, start)
      modifies this`last, this`touched, broker
      ensures Published(v, Look(), j, start + ZoneSlots(z, |ZONE|))
      ensures produced == Produced(j, start + ZoneSlots(z, |ZONE|))
      ensures !j.beat && Settled(old(Look()), j) ==> Look() == old(Look())
    {
      produced := before;
      ghost var done := start;
      for i := 0 to |ZONE|
        invariant done == start + ZoneSlots(z, i)
        invariant Published(v, Look(), j, done) && produced == Produced(j, done)
        invariant !j.beat && Settled(old(Look()), j) ==> Look() == old(Look())
      {
        assert ZoneSlot(z, i) in ZoneSlots(z, |ZONE|);
        produced := PublishSlot(j, ZoneSlot(z, i), produced, v, done);
        done := done + {ZoneSlot(z, i)};
      }
    }

    /** The outer zone loop, over the zones in any order. */
    method PublishZones(j: Job, before: set<string>, ghost v: View)
      returns (produced: set<string>, ghost all: set<Slot>)
      requires j.cfg == cfg && Published(v, Look(), j, SysSlots(|SYS|)) && before == Produced(j, SysSlots(|SYS|))
      modifies this`last, this`touched, broker
      ensures (forall s :: s in all <==> j.Covers(s)) && produced == Produced(j, all)
      ensures Published(v, Look(), j, all)
      ensures !j.beat && Settled(old(Look()), j) ==> Look() == old(Look())
    {
      produced, all := before, SysSlots(|SYS|);
      var zones := j.snap.zones.Keys;
      while zones != {}
        invariant zones <= j.snap.zones.Keys
        invariant forall s :: s in all <==> j.Covers(s) && (s.ZoneSlot? ==> s.z !in zones)
        invariant Published(v, Look(), j, all) && produced == Produced(j, all)
        invariant !j.beat && Settled(old(Look()), j) ==> Look() == old(Look())
        decreases zones
      {
        SomeMember(zones);
        var z :| z in zones;
        produced := PublishZone(j, z, produced, v, all);
        all := all + ZoneSlots(z, |ZONE|);
        zones := zones - {z};
      }
    }

    /** One turn of the retraction loop. */
    method RetractTopic(topic: string, produced: set<string>, ghost v: View, ghost seen: set<string>)
      requires Retracted(v, Look(), produced, seen) && topic !in seen && topic in v.last
      modifies this`last, this`touched, broker
      ensures Retracted(v, Look(), produced, seen + {topic})
      ensures !Retractable(v, produced, topic) ==> Look() == old(Look())
    {
      ghost var w := Look();
      assert SameAt(v, w, topic);
      if topic !in produced && last[topic] != NONE {
        var ok := broker.Publish(topic, NONE);
        if ok {
          last := last - {topic};
          touched := touched + {topic};
        }
        assert Look() == RetractStep(w, topic, ok);
        RetractStepAt(w, topic, ok);
      }
      RetractNext(v, w, Look(), produced, seen, topic);
    }

    /** The retraction loop of `PublishState`. */
    method RetractAbsent(produced: set<string>)
      requires Synced(Look())
      modifies this`last, this`touched, broker
      ensures Retracted(old(Look()), Look(), produced, old(last).Keys)
      ensures (forall t :: !Retractable(old(Look()), produced, t)) ==> Look() == old(Look())
    {
      ghost var v := Look();
      ghost var seen: set<string> := {};
      var topics := last.Keys;
      while topics != {}
        invariant topics == v.last.Keys - seen
        invariant Retracted(v, Look(), produced, seen)
        invariant (forall t :: !Retractable(v, produced, t)) ==> Look() == v
        decreases topics
      {
        var topic :| topic in topics;
        RetractTopic(topic, produced, v, seen);
        topics := topics - {topic};
        seen := seen + {topic};
      }
      RetractedAll(v, Look(), produced, seen);
    }

    /** Both passes of `PublishState`. */
    method PublishJob(j: Job)
      requires j.cfg == cfg && Synced(Look()) && (forall t :: t in touched ==> IsStateTopic(cfg, t))
      modifies this`last, this`touched, broker
      ensures Synced(Look()) && (forall t :: t in touched ==> IsStateTopic(cfg, t))
      ensures forall t :: IsHealthTopic(cfg, t) ==> Get(broker.retained, t) == Get(old(broker.retained), t)
      ensures AllOk(old(Look()), Look()) && j.Distinct() ==>
        && Converged(old(Look()), Look(), j) && Settled(Look(), j)
        && Charged(old(Look()), Look(), j) && Resent(old(Look()), Look(), j)
      ensures !j.beat && Settled(old(Look()), j) ==> Look() == old(Look())
      ensures Failed(old(broker.sends)) <= Failed(broker.sends)
    {
      ghost var v := Look();
      var produced, _ := PublishSystem(j);
      ghost var all;
      produced, all := PublishZones(j, produced, v);
      ghost var w := Look();
      RetractAbsent(produced);
      ghost var x := Look();
      StaysOnState(v, w, x, j, all);
      if AllOk(v, x) && j.Distinct() {
        CallAchieves(v, w, x, j, all);
      }
      if !j.beat && Settled(v, j) {
        NothingToRetract(v, j, all);
      }
    }

    /** `PublishState`. */
    method PublishState(snap: Snapshot, now: int) returns (ghost j: Job)
      requires Valid()
      modifies this`last, this`touched, this`lastBeat, broker
      ensures Valid()
      ensures j == Job(cfg, format, snap, old(IsBeat(lastBeat, now)))
      ensures lastBeat == if j.beat then At(now) else old(lastBeat)
      // No publish failed: the broker shows the snapshot, and the next call, off the beat, knows it.
      ensures AllOk(old(Look()), Look()) && j.Distinct() ==>
        && Converged(old(Look()), Look(), j) && ShowsFields(j, old(Look()), Look())
        && Settled(Look(), j.(beat := false))
        && Charged(old(Look()), Look(), j) && Resent(old(Look()), Look(), j)
      // Nothing new to say, and no beat: nothing is sent.
      ensures !j.beat && Settled(old(Look()), j) ==> Look() == old(Look())
      ensures Failed(old(broker.sends)) <= Failed(broker.sends)
    {
      var beat := IsBeat(lastBeat, now);
      if beat {
        lastBeat := At(now);
      }
      var job := Job(cfg, format, snap, beat);
      ghost var v := Look();
      PublishJob(job);
      if AllOk(v, Look()) && job.Distinct() {
        SettledOffBeat(Look(), job);
        FieldsShown(v, Look(), job);
      }
      j := job;
    }

    /** One `pub` of `PublishHealth`. */
    method PublishVital(i: nat, payload: string, beat: bool) returns (ghost ok: bool)
      requires Valid() && i < |HEALTH|
      modifies this`lastHealth, broker
      ensures LookHealth() == PublishStep(old(LookHealth()), HealthTopic(cfg, i), payload, beat, ok)
      ensures Synced(LookHealth()) && Synced(Look()) && forall t :: t in lastHealth ==> IsHealthTopic(cfg, t)
    {
      ok := true;
      var topic := HealthTopic(cfg, i);
      assert IsHealthTopic(cfg, topic);
      HealthIsNotState(cfg, topic);
      PublishStepAt(LookHealth(), topic, payload, beat, true);
      RetainedElsewhere(Look(), topic, payload);
      if beat || Get(lastHealth, topic) != payload {
        var sent := broker.Publish(topic, payload);
        ok := sent;
        if sent {
          lastHealth := lastHealth[topic := payload];
        }
      }
    }

    /** `PublishHealth`: with no failure, every vital is as published; no other topic is sent to or changes. */
    method PublishHealth(h: Health, now: int) returns (ghost beat: bool)
      requires Valid()
      modifies this`lastHealth, this`lastHealthBeat, broker
      ensures Valid() && beat == old(IsBeat(lastHealthBeat, now))
      ensures Failed(old(broker.sends)) <= Failed(broker.sends)
      ensures AllOk(old(LookHealth()), LookHealth()) ==>
        VitalsPublished(cfg, format, h, old(LookHealth()), LookHealth(), beat, |HEALTH|)
      ensures !beat && VitalsKnown(cfg, format, h, old(LookHealth())) ==> LookHealth() == old(LookHealth())
      ensures OnlyHealth(cfg, old(LookHealth()), LookHealth())
      ensures lastHealthBeat == if beat then At(now) else old(lastHealthBeat)
    {
      var isBeat := IsBeat(lastHealthBeat, now);
      if isBeat {
        lastHealthBeat := At(now);
      }
      beat := isBeat;
      ghost var v := LookHealth();
      for i := 0 to |HEALTH|
        invariant Valid() && Failed(v.sends) <= Failed(broker.sends)
        invariant lastHealthBeat == if isBeat then At(now) else old(lastHealthBeat)
        invariant VitalsUpTo(cfg, format, h, v, LookHealth(), isBeat, i)
      {
        ghost var w := LookHealth();
        var payload := HealthPayload(format, h, i);
        ghost var ok := PublishVital(i, payload, isBeat);
        VitalsNext(cfg, format, h, v, w, isBeat, i, ok);
      }
    }
  }

  // ----- Vitals -----

  /** The first `n` vitals are as one successful publish each leaves them. */
  ghost predicate VitalsPublished(
    cfg: Config, format: (Rendering, real) -> string, h: Health, v: View, w: View, beat: bool, n: nat)
    requires n <= |HEALTH|
  {
    forall i :: 0 <= i < n ==> PublishedAt(v, w, HealthTopic(cfg, i), HealthPayload(format, h, i), beat)
  }

  /** The exporter already remembers all vitals. */
  ghost predicate VitalsKnown(cfg: Config, format: (Rendering, real) -> string, h: Health, v: View) {
    forall i :: 0 <= i < |HEALTH| ==> Get(v.last, HealthTopic(cfg, i)) == HealthPayload(format, h, i)
  }

  /** From `v` to `w` the first `n` vitals have been published. */
  ghost predicate VitalsUpTo(
    cfg: Config, format: (Rendering, real) -> string, h: Health, v: View, w: View, beat: bool, n: nat)
    requires n <= |HEALTH|
  {
    && OnlyHealth(cfg, v, w) && Failed(v.sends) <= Failed(w.sends)
    && (AllOk(v, w) ==> VitalsPublished(cfg, format, h, v, w, beat, n))
    && (forall i :: n <= i < |HEALTH| ==> SameAt(v, w, HealthTopic(cfg, i)))
    && (!beat && VitalsKnown(cfg, format, h, v) ==> w == v)
  }

  /** Publishing one health topic leaves all other health topics, and all other topics, alone. */
  lemma VitalShown(cfg: Config, v: View, i: nat, payload: string, beat: bool, ok: bool)
    requires Synced(v) && i < |HEALTH|
    ensures var w := PublishStep(v, HealthTopic(cfg, i), payload, beat, ok);
            && Failed(v.sends) <= Failed(w.sends) && OnlyHealth(cfg, v, w)
            && (AllOk(v, w) ==> PublishedAt(v, w, HealthTopic(cfg, i), payload, beat))
            && (forall k :: 0 <= k < |HEALTH| && k != i ==> SameAt(v, w, HealthTopic(cfg, k)))
  {
    var topic := HealthTopic(cfg, i);
    var w := PublishStep(v, topic, payload, beat, ok);
    PublishStepAt(v, topic, payload, beat, ok);
    assert IsHealthTopic(cfg, topic);
    forall t | !IsHealthTopic(cfg, t) ensures SameAt(v, w, t) {
      assert t != topic;
    }
    forall k | 0 <= k < |HEALTH| && k != i ensures HealthTopic(cfg, k) != topic {
      if HealthTopic(cfg, k) == topic {
        HealthTopicsDistinct(cfg, k, i);
      }
    }
  }

  lemma VitalsNext(
    cfg: Config, format: (Rendering, real) -> string, h: Health, v: View, w: View, beat: bool, i: nat, ok: bool)
    requires i < |HEALTH| && Synced(w) && VitalsUpTo(cfg, format, h, v, w, beat, i)
    ensures var x := PublishStep(w, HealthTopic(cfg, i), HealthPayload(format, h, i), beat, ok);
            VitalsUpTo(cfg, format, h, v, x, beat, i + 1)
  {
    var payload := HealthPayload(format, h, i);
    var x := PublishStep(w, HealthTopic(cfg, i), payload, beat, ok);
    VitalShown(cfg, w, i, payload, beat, ok);
    assert SameAt(v, w, HealthTopic(cfg, i));
    if AllOk(v, x) {
      forall k | 0 <= k < i + 1
        ensures PublishedAt(v, x, HealthTopic(cfg, k), HealthPayload(format, h, k), beat)
      {
        if k < i {
          assert PublishedAt(v, w, HealthTopic(cfg, k), HealthPayload(format, h, k), beat);
          assert SameAt(w, x, HealthTopic(cfg, k));
        }
      }
    }
    forall k | i + 1 <= k < |HEALTH| ensures SameAt(v, x, HealthTopic(cfg, k)) {
      assert SameAt(v, w, HealthTopic(cfg, k)) && SameAt(w, x, HealthTopic(cfg, k));
    }
  }

  /** A published payload that is not empty is what the broker shows. */
  lemma PublishedShows(v: View, w: View, t: string, payload: string, force: bool)
    requires Synced(v) && PublishedAt(v, w, t, payload, force) && payload != ""
    ensures Get(w.retained, t) == payload
  {
  }

  ghost predicate ShowsAt(cfg: Config, w: View, id: string, payload: string) {
    payload != "" ==> Get(w.retained, cfg.baseTopic + "/" + id + "/state") == payload
  }

  /** The broker shows the daemon's vitals, each on its own topic. */
  lemma VitalsOnTopics(
    cfg: Config, format: (Rendering, real) -> string, h: Health, v: View, w: View, beat: bool)
    requires Synced(v) && VitalsPublished(cfg, format, h, v, w, beat, |HEALTH|)
    ensures ShowsAt(cfg, w, "frames_per_min", format(Trimmed, h.framesPerMin))
    ensures ShowsAt(cfg, w, "unknown_frames", format(Trimmed, h.unknownFrames))
    ensures ShowsAt(cfg, w, "sam_failures", format(Trimmed, h.samFailures))
    ensures ShowsAt(cfg, w, "fault_count", format(Trimmed, h.faultCount))
    ensures ShowsAt(cfg, w, "last_fault", if h.lastFault == "" then "None" else h.lastFault)
    ensures ShowsAt(cfg, w, "fault_active", if h.faultActive then "ON" else "OFF")
    ensures ShowsAt(cfg, w, "bus_online", if h.busOnline then "ON" else "OFF")
  {
    forall i: nat | i < |HEALTH| ensures ShowsAt(cfg, w, HEALTH[i], HealthPayload(format, h, i)) {
      if HealthPayload(format, h, i) != "" {
        PublishedShows(v, w, HealthTopic(cfg, i), HealthPayload(format, h, i), beat);
      }
    }
    assert HEALTH[0] == "frames_per_min" && HEALTH[1] == "unknown_frames" && HEALTH[2] == "sam_failures";
    assert HEALTH[3] == "fault_count" && HEALTH[4] == "last_fault" && HEALTH[5] == "fault_active";
    assert HEALTH[6] == "bus_online";
  }

  /**
   A snapshot published twice: if the first call has no failure, on a beat or not, and the
   second is off the beat, the second sends nothing. `between` is what the first leaves.
   */
  method PublishTwice(e: Exporter, snap: Snapshot, first: int, second: int)
    returns (ghost j: Job, ghost between: View, ghost beat: bool)
    requires e.Valid() && DistinctNames(e.cfg, snap.zones.Keys)
    modifies e`last, e`touched, e`lastBeat, e.broker
    ensures e.Valid() && Failed(old(e.broker.sends)) <= Failed(between.sends) <= Failed(e.broker.sends)
    ensures j == Job(e.cfg, e.format, snap, old(e.IsBeat(e.lastBeat, first)))
    ensures j.beat ==> (beat <==> second - first >= 60 * SECOND)
    ensures AllOk(old(e.Look()), between) ==> Converged(old(e.Look()), between, j)
    ensures AllOk(old(e.Look()), between) && !beat ==> e.Look() == between
  {
    j := e.PublishState(snap, first);
    between, beat := e.Look(), e.IsBeat(e.lastBeat, second);
    ghost var _ := e.PublishState(snap, second);
  }

  /** A cycle of the publish loop: the snapshot, the vitals, and when they were taken. */
  datatype Cycle = Cycle(snap: Snapshot, health: Health, now: int)

  /**
   The publish loop: over any number of cycles without a failed publish, a topic whose
   field stays absent is sent to at most twice, however many beats pass.
   */
  method PublishCycles(e: Exporter, cycles: seq<Cycle>, ghost t: string)
    requires e.Valid() && !IsHealthTopic(e.cfg, t)
    requires forall k :: 0 <= k < |cycles| ==>
      forall beat :: var j := Job(e.cfg, e.format, cycles[k].snap, beat); j.Distinct() && !j.Shows(t)
    modifies e, e.broker
    ensures e.Valid()
    ensures Failed(e.broker.sends) == Failed(old(e.broker.sends)) ==>
      SentTo(e.broker.sends, t) <= SentTo(old(e.broker.sends), t) + 2
  {
    ghost var v := e.Look();
    for k := 0 to |cycles|
      invariant e.Valid() && Failed(v.sends) <= Failed(e.broker.sends)
      invariant AllOk(v, e.Look()) ==>
        SentTo(e.broker.sends, t) + Budget(e.Look(), t) <= SentTo(v.sends, t) + Budget(v, t)
    {
      ghost var j := e.PublishState(cycles[k].snap, cycles[k].now);
      assert j.Distinct() && !j.Shows(t);
      ghost var _ := e.PublishHealth(cycles[k].health, cycles[k].now);
    }
  }
}
