/**
 `trackCounter` of cmd/infinid/main.go: the power-on counters go to the journal, and once in
 the life of a process the gap before it is classified.
 */
module Outages {
  import opened Basics
  import opened Events
  import opened Journals

  const IDU := "idu_power_cycles"
  const ODU := "odu_power_cycles"

  predicate IsCounter(field: string) {
    field == IDU || field == ODU
  }

  /** What the goroutines ask of the journal, in the order in which they get its lock. */
  datatype Call =
    /** `trackCounter`; `between` are liveness checks that slip in between its two journal calls. */
    | Tracked(field: string, value: real, now: int, between: seq<LivenessCheck>)
    | DeviceHeard(addr: int, now: int)
    | LivenessChecked(now: int, active: seq<int>)
    | FaultsRead(current: seq<Fault>, now: int)

  datatype LivenessCheck = LivenessCheck(now: int, active: seq<int>)

  // ----- Specification over the whole process -----

  /** The last value seen of each counter. */
  function Seen(calls: seq<Call>): map<string, real> {
    if calls == [] then map[]
    else
      var m, c := Seen(calls[..|calls| - 1]), calls[|calls| - 1];
      if c.Tracked? && IsCounter(c.field) then m[c.field := c.value] else m
  }

  predicate Complete(counters: map<string, real>) {
    IDU in counters && ODU in counters
  }

  /** The call at which the pair of counters first becomes complete. */
  function FirstComplete(calls: seq<Call>): (r: Option<nat>)
    ensures r.Some? ==> r.value < |calls|
  {
    if calls == [] then None
    else
      var earlier := FirstComplete(calls[..|calls| - 1]);
      if earlier.Some? then earlier
      else if Complete(Seen(calls)) then Some(|calls| - 1)
      else None
  }

  lemma {:induction false} SeenGrows(calls: seq<Call>, i: nat)
    requires i <= |calls|
    ensures Seen(calls[..i]).Keys <= Seen(calls).Keys && Seen(calls).Keys <= {IDU, ODU}
    decreases |calls|
  {
    if i == |calls| {
      assert calls[..i] == calls;
      if calls != [] {
        SeenGrows(calls[..i - 1], 0);
      }
    } else {
      SeenGrows(calls[..|calls| - 1], i);
      assert calls[..|calls| - 1][..i] == calls[..i];
    }
  }

  /** It is there exactly when both counters have been seen, and is the first such moment. */
  lemma {:induction false} FirstCompleteIsFirst(calls: seq<Call>)
    ensures FirstComplete(calls).Some? <==> Complete(Seen(calls))
    ensures FirstComplete(calls).Some? ==>
      var i := FirstComplete(calls).value;
      && Complete(Seen(calls[..i + 1])) && calls[i].Tracked? && IsCounter(calls[i].field)
      && forall j :: 0 <= j <= i ==> !Complete(Seen(calls[..j]))
  {
    if calls != [] {
      var n := |calls| - 1;
      var before := calls[..n];
      FirstCompleteIsFirst(before);
      SeenGrows(calls, n);
      if FirstComplete(before).Some? {
        var i := FirstComplete(before).value;
        assert calls[..i + 1] == before[..i + 1];
        assert forall j :: 0 <= j <= i ==> calls[..j] == before[..j];
      } else if Complete(Seen(calls)) {
        assert calls[..n + 1] == calls;
        forall j | 0 <= j <= n ensures !Complete(Seen(calls[..j])) {
          SeenGrows(before, j);
          assert before[..j] == calls[..j];
        }
      }
    }
  }

  /** The classifications in a log. */
  function OutagesIn(log: seq<Event>): seq<Event> {
    if log == [] then []
    else OutagesIn(log[..|log| - 1]) + (if log[|log| - 1].OutageClassified? then [log[|log| - 1]] else [])
  }

  /** What a process that starts with reference counters `reference` journals about the gap. */
  function Classification(reference: map<string, real>, calls: seq<Call>): seq<Event> {
    match FirstComplete(calls)
    case None => []
    case Some(i) => [OutageClassified(calls[i].now, Verdict(reference, Seen(calls[..i + 1])))]
  }

  // ----- What other calls leave alone -----

  ghost predicate AllWatch(events: seq<Event>) {
    forall i :: 0 <= i < |events| ==> IsWatch(events[i])
  }

  /** Every pair of counters in the log is one of the daemon's. */
  ghost predicate PairsOnly(log: seq<Event>) {
    forall i :: 0 <= i < |log| && log[i].PowerCounters? ==> log[i].values.Keys == {IDU, ODU}
  }

  /** The log has grown, by nothing that has to do with counters. */
  ghost predicate SameTally(before: seq<Event>, log: seq<Event>) {
    before <= log && OutagesIn(log) == OutagesIn(before) && (PairsOnly(before) ==> PairsOnly(log))
  }

  /** The reference once `vals` have been noted. */
  ghost function Noted(reference: map<string, real>, vals: map<string, real>): map<string, real> {
    if SameCounters(reference, vals) then reference else vals
  }

  /** The verdict on a complete pair, if it is the first. */
  ghost function VerdictOn(reference: map<string, real>, vals: map<string, real>, first: bool, now: int): seq<Event> {
    if first then [OutageClassified(now, Verdict(reference, vals))] else []
  }

  /** The pair itself, if it is not what the reference says. */
  ghost function PairNoted(reference: map<string, real>, vals: map<string, real>, now: int): seq<Event> {
    if SameCounters(reference, vals) then [] else [PowerCounters(now, vals)]
  }

  /** The log after a complete pair: the verdict, what others journaled meanwhile, and the pair. */
  ghost function Reported(
    log: seq<Event>, reference: map<string, real>, vals: map<string, real>, first: bool, now: int, watch: seq<Event>)
    : seq<Event>
  {
    log + VerdictOn(reference, vals, first, now) + watch + PairNoted(reference, vals, now)
  }

  lemma {:induction false} NoneAdded(log: seq<Event>, more: seq<Event>)
    requires forall i :: 0 <= i < |more| ==> !more[i].OutageClassified? && !more[i].PowerCounters?
    ensures SameTally(log, log + more)
    decreases |more|
  {
    if more == [] {
      assert log + more == log;
    } else {
      var n := |more| - 1;
      NoneAdded(log, more[..n]);
      assert (log + more)[..|log| + n] == log + more[..n];
    }
  }

  lemma VerdictTally(log: seq<Event>, reference: map<string, real>, vals: map<string, real>, first: bool, now: int)
    ensures var verdict := VerdictOn(reference, vals, first, now);
            OutagesIn(log + verdict) == OutagesIn(log) + verdict && (PairsOnly(log) ==> PairsOnly(log + verdict))
  {
    if first {
      OneAdded(log, OutageClassified(now, Verdict(reference, vals)));
    } else {
      assert log + [] == log;
    }
  }

  lemma PairTally(log: seq<Event>, reference: map<string, real>, vals: map<string, real>, now: int)
    ensures var pair := PairNoted(reference, vals, now);
            && OutagesIn(log + pair) == OutagesIn(log)
            && (PairsOnly(log) && vals.Keys == {IDU, ODU} ==> PairsOnly(log + pair))
  {
    if SameCounters(reference, vals) {
      assert log + [] == log;
    } else {
      assert (log + [PowerCounters(now, vals)])[..|log|] == log;
    }
  }

  lemma ReportedTally(
    log: seq<Event>, reference: map<string, real>, vals: map<string, real>, first: bool, now: int, watch: seq<Event>)
    requires AllWatch(watch)
    ensures var after := Reported(log, reference, vals, first, now, watch);
            && OutagesIn(after) == OutagesIn(log) + VerdictOn(reference, vals, first, now)
            && (PairsOnly(log) && vals.Keys == {IDU, ODU} ==> PairsOnly(after))
            && log <= after
  {
    var one := log + VerdictOn(reference, vals, first, now);
    VerdictTally(log, reference, vals, first, now);
    NoneAdded(one, watch);
    PairTally(one + watch, reference, vals, now);
  }

  lemma OneAdded(log: seq<Event>, e: Event)
    requires e.OutageClassified?
    ensures OutagesIn(log + [e]) == OutagesIn(log) + [e]
  {
    assert (log + [e])[..|log|] == log;
  }

  lemma {:induction false} WipesClassifyNothing(faults: map<Key, Fault>, order: seq<Key>, now: int)
    requires forall k :: k in order ==> k in faults
    ensures forall i :: 0 <= i < |Wipes(faults, order, now)| ==> Wipes(faults, order, now)[i].FaultEvent?
    decreases |order|
  {
    if order != [] {
      WipesClassifyNothing(faults, order[..|order| - 1], now);
    }
  }

  lemma {:induction false} DiffsClassifyNothing(known: map<Key, Fault>, current: seq<Fault>, now: int)
    ensures forall i :: 0 <= i < |DiffAll(known, current, now)| ==> DiffAll(known, current, now)[i].FaultEvent?
  {
    if current != [] {
      DiffsClassifyNothing(known, current[..|current| - 1], now);
    }
  }

  /** What matters of a running process: its journal's log and reference, and its own counters. */
  datatype Standing = Standing(
    log: seq<Event>, reference: map<string, real>, counters: map<string, real>, classified: bool)

  /** What one call does. */
  ghost predicate Served(s: Standing, call: Call, t: Standing) {
    var tracked := call.Tracked? && IsCounter(call.field);
    && t.counters == (if tracked then s.counters[call.field := call.value] else s.counters)
    && t.classified == (s.classified || (tracked && Complete(t.counters)))
    && t.reference == (if tracked && Complete(t.counters) then Noted(s.reference, t.counters) else s.reference)
    && s.log <= t.log && (PairsOnly(s.log) ==> PairsOnly(t.log))
    && OutagesIn(t.log) ==
         OutagesIn(s.log) + VerdictOn(s.reference, t.counters, t.classified && !s.classified, call.now)
  }

  lemma NotTracked(s: Standing, call: Call, log: seq<Event>)
    requires !call.Tracked? && SameTally(s.log, log)
    ensures Served(s, call, s.(log := log))
  {
    assert OutagesIn(s.log) + [] == OutagesIn(s.log);
  }

  // ----- Implementation -----

  /** The daemon, as far as it keeps counters. */
  class Daemon {
    const journal: Journal?
    var counters: map<string, real>
    var classified: bool

    constructor (journal: Journal?)
      ensures this.journal == journal && counters == map[] && !classified
    {
      this.journal := journal;
      counters, classified := map[], false;
    }

    ghost predicate Valid()
      reads this, journal
    {
      (journal != null ==> journal.Valid()) && counters.Keys <= {IDU, ODU}
    }

    /** The liveness checks of another goroutine, and the events they journal. */
    method Check(checks: seq<LivenessCheck>) returns (ghost watch: seq<Event>)
      requires Valid() && journal != null
      modifies journal`log, journal`lastSeen, journal`lost, journal`busSilent, journal`firstCheck
      ensures Valid() && journal.log == old(journal.log) + watch && AllWatch(watch)
    {
      watch := [];
      for i := 0 to |checks|
        invariant Valid() && journal.log == old(journal.log) + watch && AllWatch(watch)
      {
        ghost var before := journal.log;
        journal.CheckLiveness(checks[i].now, checks[i].active);
        assert journal.log == before + journal.log[|before|..];
        ConcatAssociative(old(journal.log), watch, journal.log[|before|..]);
        watch := watch + journal.log[|before|..];
      }
    }

    /**
     The journal calls of `trackCounter`, made once the pair is complete: the verdict if it is the
     first, and then the pair if it is not what was last journaled.
     */
    method Report(vals: map<string, real>, first: bool, now: int, between: seq<LivenessCheck>)
      returns (ghost watch: seq<Event>)
      requires Valid() && journal != null
      modifies journal
      ensures Valid() && AllWatch(watch) && journal.counters == Noted(old(journal.counters), vals)
      ensures journal.log == Reported(old(journal.log), old(journal.counters), vals, first, now, watch)
    {
      if first {
        journal.ClassifyGap(vals, now);
      }
      assert old(journal.log) + [] == old(journal.log);
      watch := Check(between);
      Note(vals, now);
    }

    /** `NotePowerCounters`. */
    method Note(vals: map<string, real>, now: int)
      requires Valid() && journal != null
      modifies journal`log, journal`counters
      ensures Valid() && journal.counters == Noted(old(journal.counters), vals)
      ensures journal.log == old(journal.log) + PairNoted(old(journal.counters), vals, now)
    {
      journal.NotePowerCounters(vals, now);
      assert old(journal.log) + [] == old(journal.log);
    }

    /** `trackCounter`. */
    method TrackCounter(field: string, value: real, now: int, between: seq<LivenessCheck>)
      returns (ghost watch: seq<Event>)
      requires Valid()
      modifies this, journal
      ensures Valid() && AllWatch(watch)
      ensures journal == null || !IsCounter(field) ==>
        counters == old(counters) && classified == old(classified) &&
        (journal != null ==> journal.log == old(journal.log) && journal.counters == old(journal.counters))
      ensures journal != null && IsCounter(field) ==>
        && counters == old(counters)[field := value]
        && classified == (old(classified) || Complete(counters))
        && (if Complete(counters) then
              && journal.counters == Noted(old(journal.counters), counters)
              && journal.log ==
                   Reported(old(journal.log), old(journal.counters), counters, !old(classified), now, watch)
            else journal.counters == old(journal.counters) && journal.log == old(journal.log))
    {
      watch := [];
      if journal == null {
        return;
      }
      if field != IDU && field != ODU {
        return;
      }
      counters := counters[field := value];
      CountOfTwo(counters);
      var both, done, vals := |counters| == 2, classified, counters;
      if both && !done {
        classified := true;
      }
      if both {
        watch := Report(vals, !done, now, between);
      }
    }

    /** `NoteFaults`, as far as counters go. */
    method ReadFaults(current: seq<Fault>, now: int)
      requires Valid() && journal != null
      modifies journal`log, journal`faults
      ensures Valid() && SameTally(old(journal.log), journal.log)
    {
      ghost var before, known := journal.log, journal.faults;
      ghost var order := journal.NoteFaults(current, now);
      if current == [] {
        WipesClassifyNothing(known, order, now);
        NoneAdded(before, Wipes(known, order, now));
      } else {
        DiffsClassifyNothing(known, current, now);
        NoneAdded(before, DiffAll(known, current, now));
      }
    }

    ghost function Now(): Standing
      requires journal != null
      reads this, journal
    {
      Standing(journal.log, journal.counters, counters, classified)
    }

    /** `trackCounter`, as far as what the log says of counters goes. */
    method Track(call: Call)
      requires Valid() && journal != null && call.Tracked?
      modifies this, journal
      ensures Valid() && Served(old(Now()), call, Now())
    {
      ghost var log, reference, first := journal.log, journal.counters, !classified;
      ghost var watch := TrackCounter(call.field, call.value, call.now, call.between);
      if IsCounter(call.field) && Complete(counters) {
        ReportedTally(log, reference, counters, first, call.now, watch);
      } else {
        VerdictTally(log, reference, counters, false, call.now);
      }
    }

    /** Any other call. */
    method ServeOther(call: Call)
      requires Valid() && journal != null && !call.Tracked?
      modifies journal`log, journal`faults, journal`lastSeen, journal`lost, journal`busSilent, journal`firstCheck
      ensures Valid() && SameTally(old(journal.log), journal.log)
    {
      ghost var before := journal.log;
      match call {
        case DeviceHeard(addr, now) =>
          journal.NoteDevice(addr, now);
          NoneAdded(before, journal.log[|before|..]);
          assert journal.log == before + journal.log[|before|..];
        case LivenessChecked(now, active) =>
          ghost var watch := Check([LivenessCheck(now, active)]);
          NoneAdded(before, watch);
        case FaultsRead(current, now) => ReadFaults(current, now);
      }
    }

    /** One call: only a counter reading that makes or finds the pair complete matters. */
    method Serve(call: Call)
      requires Valid() && journal != null
      modifies this, journal
      ensures Valid() && Served(old(Now()), call, Now())
    {
      if call.Tracked? {
        Track(call);
      } else {
        ghost var s := Now();
        ServeOther(call);
        NotTracked(s, call, journal.log);
      }
    }
  }

  lemma CountOfTwo(counters: map<string, real>)
    requires counters.Keys <= {IDU, ODU}
    ensures |counters| == 2 <==> Complete(counters)
  {
    assert |counters| == |counters.Keys|;
    if Complete(counters) {
      assert counters.Keys == {IDU, ODU};
    } else if IDU in counters {
      assert counters.Keys == {IDU};
    } else if ODU in counters {
      assert counters.Keys == {ODU};
    } else {
      assert counters.Keys == {};
    }
  }

  // ----- Main results -----

  /** A log of pairs recovers no counters or a pair. */
  lemma {:induction false} PairsRecovered(log: seq<Event>)
    requires PairsOnly(log)
    ensures Replay(log).counters == map[] || Replay(log).counters.Keys == {IDU, ODU}
  {
    if log != [] {
      var n := |log| - 1;
      assert forall i :: 0 <= i < n ==> log[..n][i] == log[i];
      PairsRecovered(log[..n]);
    }
  }

  /** The pair a process ends with, or what it found if it never saw both. */
  ghost function LastPair(reference: map<string, real>, calls: seq<Call>): map<string, real> {
    if Complete(Seen(calls)) then Seen(calls) else reference
  }

  /** A complete pair is the reference once it has been noted. */
  lemma NotedPair(reference: map<string, real>, vals: map<string, real>)
    requires vals.Keys == {IDU, ODU} && (reference == map[] || reference.Keys == {IDU, ODU})
    ensures Noted(reference, vals) == vals
  {
    if reference.Keys == {IDU, ODU} {
      SameCountersExact(reference, vals);
    } else {
      assert |reference| == 0;
      assert IDU in vals;
    }
  }

  /** The reference after `calls`: the pair, to the journal's comparison, or what was found. */
  ghost predicate References(
    clean: bool, reference: map<string, real>, calls: seq<Call>, counters: map<string, real>)
  {
    && (if Complete(Seen(calls)) then SameCounters(counters, Seen(calls)) else counters == reference)
    && (clean ==> counters == LastPair(reference, calls))
  }

  /** Where a process stands that began with `existing` and has served `calls`. */
  ghost predicate Stands(existing: seq<Event>, calls: seq<Call>, s: Standing) {
    var clean, found := PairsOnly(existing), Replay(existing).counters;
    && s.counters == Seen(calls) && (s.classified <==> Complete(Seen(calls)))
    && References(clean, found, calls, s.reference)
    && existing <= s.log && (clean ==> PairsOnly(s.log))
    && OutagesIn(s.log) == OutagesIn(existing) + Classification(found, calls)
  }

  lemma ReferencesNext(clean: bool, found: map<string, real>, calls: seq<Call>, i: nat, s: Standing, t: Standing)
    requires i < |calls| && References(clean, found, calls[..i], s.reference)
    requires clean ==> found == map[] || found.Keys == {IDU, ODU}
    requires Served(s, calls[i], t) && t.counters == Seen(calls[..i + 1])
    ensures References(clean, found, calls[..i + 1], t.reference)
  {
    assert calls[..i + 1][..i] == calls[..i];
    SeenGrows(calls[..i + 1], i);
    SeenGrows(calls[..i], 0);
    if clean && Complete(t.counters) && calls[i].Tracked? && IsCounter(calls[i].field) {
      NotedPair(s.reference, t.counters);
    }
  }

  /** One more call adds its verdict, if it makes the pair complete. */
  lemma JudgedNext(found: map<string, real>, calls: seq<Call>, i: nat, earlier: seq<Event>, before: map<string, real>)
    requires i < |calls| && (!Complete(Seen(calls[..i])) ==> before == found)
    ensures var vals := Seen(calls[..i + 1]);
            var first := Complete(vals) && !Complete(Seen(calls[..i]));
            earlier + Classification(found, calls[..i]) + VerdictOn(before, vals, first, calls[i].now)
              == earlier + Classification(found, calls[..i + 1])
  {
    ClassificationNext(found, calls, i);
  }

  lemma StandsNext(existing: seq<Event>, calls: seq<Call>, i: nat, s: Standing, t: Standing)
    requires i < |calls| && Stands(existing, calls[..i], s) && Served(s, calls[i], t)
    ensures Stands(existing, calls[..i + 1], t)
  {
    var found := Replay(existing).counters;
    if PairsOnly(existing) {
      PairsRecovered(existing);
    }
    assert calls[..i + 1][..i] == calls[..i];
    SeenGrows(calls[..i + 1], i);
    ReferencesNext(PairsOnly(existing), found, calls, i, s, t);
    JudgedNext(found, calls, i, OutagesIn(existing), s.reference);
  }

  /**
   A whole process, whatever else the journal is told: it classifies the gap at most once, at
   the first complete pair of counters, by the counters that the earlier log ends with; and it
   leaves a log whose counters are, to the journal's comparison, the last pair it saw.
   */
  method Process(existing: seq<Event>, calls: seq<Call>) returns (d: Daemon)
    ensures fresh(d) && d.journal != null && fresh(d.journal) && d.journal.Valid() && existing <= d.journal.log
    ensures OutagesIn(d.journal.log) == OutagesIn(existing) + Classification(Replay(existing).counters, calls)
    ensures PairsOnly(existing) ==> PairsOnly(d.journal.log)
    ensures References(PairsOnly(existing), Replay(existing).counters, calls, Replay(d.journal.log).counters)
  {
    var j := new Journal(existing);
    d := new Daemon(j);
    for i := 0 to |calls|
      invariant d.Valid() && d.journal == j && fresh(d) && fresh(j)
      invariant Stands(existing, calls[..i], d.Now())
    {
      ghost var s := d.Now();
      d.Serve(calls[i]);
      StandsNext(existing, calls, i, s, d.Now());
    }
    assert calls[..|calls|] == calls;
  }

  /** The counters that the last of some processes to see a pair ended with. */
  ghost function Reference(lives: seq<seq<Call>>): map<string, real> {
    if lives == [] then map[] else LastPair(Reference(lives[..|lives| - 1]), lives[|lives| - 1])
  }

  /** Each process classified against the pair that its predecessors ended with. */
  ghost function Verdicts(lives: seq<seq<Call>>): seq<Event> {
    if lives == [] then []
    else
      var before := lives[..|lives| - 1];
      Verdicts(before) + Classification(Reference(before), lives[|lives| - 1])
  }

  /**
   One process after another on the same journal: replaying the log always gives back what the
   running process remembers, and the gap before each process is judged at most once, against the
   pair of counters that its predecessors ended with.
   */
  method Lives(lives: seq<seq<Call>>) returns (j: Journal)
    ensures fresh(j) && j.Valid() && Replay(j.log) == Memory(j.faults, j.counters)
    ensures OutagesIn(j.log) == Verdicts(lives) && j.counters == Reference(lives)
  {
    j := new Journal([]);
    for i := 0 to |lives|
      invariant fresh(j) && j.Valid() && PairsOnly(j.log)
      invariant OutagesIn(j.log) == Verdicts(lives[..i]) && j.counters == Reference(lives[..i])
    {
      assert lives[..i + 1][..i] == lives[..i];
      var d := Process(j.log, lives[i]);
      j := d.journal;
    }
    assert lives[..|lives|] == lives;
  }

  lemma ClassificationNext(reference: map<string, real>, calls: seq<Call>, i: nat)
    requires i < |calls|
    ensures var before, after := calls[..i], calls[..i + 1];
            Classification(reference, after) ==
              if !Complete(Seen(before)) && Complete(Seen(after))
              then [OutageClassified(calls[i].now, Verdict(reference, Seen(after)))]
              else Classification(reference, before)
    ensures !Complete(Seen(calls[..i])) ==> Classification(reference, calls[..i]) == []
  {
    var before, after := calls[..i], calls[..i + 1];
    assert after[..i] == before;
    FirstCompleteWhen(before);
    FirstCompleteWhen(after);
    if FirstComplete(before).Some? {
      var k := FirstComplete(before).value;
      assert after[..k + 1] == before[..k + 1];
    } else if FirstComplete(after).Some? {
      assert after[..i + 1] == after;
    }
  }

  lemma FirstCompleteWhen(calls: seq<Call>)
    ensures FirstComplete(calls).Some? <==> Complete(Seen(calls))
  {
    FirstCompleteIsFirst(calls);
  }

  /** The reference is the last `power_counters` event of the log, and empty where there is none. */
  lemma {:induction false} ReferenceIsLast(log: seq<Event>, i: nat)
    requires i <= |log| && forall j :: i <= j < |log| ==> !log[j].PowerCounters?
    ensures i == 0 ==> Replay(log).counters == map[]
    ensures i > 0 && log[i - 1].PowerCounters? ==> Replay(log).counters == log[i - 1].values
    decreases |log|
  {
    if i < |log| {
      ReferenceIsLast(log[..|log| - 1], i);
    }
  }

  /** What the three verdicts mean, `i` being just past the last `power_counters` event, or 0. */
  lemma VerdictExact(log: seq<Event>, i: nat, vals: map<string, real>)
    requires i <= |log| && (i > 0 ==> log[i - 1].PowerCounters?)
    requires forall j :: i <= j < |log| ==> !log[j].PowerCounters?
    ensures var reference, verdict := if i == 0 then map[] else log[i - 1].values, Verdict(Replay(log).counters, vals);
            && (verdict == NoReference <==> reference == map[])
            && (verdict == HvacPowerLoss <==> exists k :: k in vals && k in reference && vals[k] != reference[k])
  {
    ReferenceIsLast(log, i);
  }
}
