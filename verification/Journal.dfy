/**
 The event journal of state/journal.go: live memory that replaying the log rebuilds, and
 liveness flags whose events form a well-ordered history.
 */
module Journals {
  import opened Basics
  import opened Events
  import opened Liveness

  /** `NotePowerCounters` reads a missing counter as zero, as Go maps do. */
  function Count(m: map<string, real>, k: string): real {
    if k in m then m[k] else 0.0
  }

  ghost predicate SameCounters(a: map<string, real>, b: map<string, real>) {
    |a| == |b| && forall k :: k in a || k in b ==> Count(a, k) == Count(b, k)
  }

  /** On complete counter sets over the same names, the comparison is equality. */
  lemma SameCountersExact(a: map<string, real>, b: map<string, real>)
    requires a.Keys == b.Keys
    ensures SameCounters(a, b) <==> a == b
  {
    if SameCounters(a, b) {
      forall k | k in a ensures a[k] == b[k] {
        assert Count(a, k) == Count(b, k);
      }
    }
  }

  function NonZero(m: map<string, real>): map<string, real> {
    map k | k in m && m[k] != 0.0 :: m[k]
  }

  /** Over any keys, a change is missed exactly if all it does is to exchange zero counters. */
  lemma MissedExactly(a: map<string, real>, b: map<string, real>)
    ensures SameCounters(a, b) && a != b <==> |a| == |b| && NonZero(a) == NonZero(b) && a.Keys != b.Keys
  {
    if SameCounters(a, b) {
      forall k | k in NonZero(a) || k in NonZero(b)
        ensures k in NonZero(a) && k in NonZero(b) && a[k] == b[k]
      {
        assert Count(a, k) == Count(b, k);
      }
      if a.Keys == b.Keys {
        SameCountersExact(a, b);
      }
    }
    if NonZero(a) == NonZero(b) {
      forall k | k in a || k in b ensures Count(a, k) == Count(b, k) {
        assert k in NonZero(a) <==> k in NonZero(b);
      }
    }
  }

  /** Otherwise it can miss a change: a zero counter is taken for one that is not there. */
  lemma ZeroCounterMissed()
    ensures SameCounters(map["idu" := 0.0], map["odu" := 0.0])
  {
    var a, b := map["idu" := 0.0], map["odu" := 0.0];
    assert |a| == 1 && |b| == 1;
  }

  /** The faults filed under some of the keys. */
  ghost function Only(faults: map<Key, Fault>, keys: set<Key>): map<Key, Fault> {
    map k | k in keys && k in faults :: faults[k]
  }

  lemma OnlyWithout(faults: map<Key, Fault>, keys: set<Key>, k: Key)
    ensures Only(faults, keys) - {k} == Only(faults, keys - {k})
  {
  }

  lemma OnlyAll(faults: map<Key, Fault>)
    ensures Only(faults, {}) == map[] && Only(faults, faults.Keys) == faults
  {
  }

  function Wipe(f: Fault, now: int): Event {
    FaultEvent(now, HistoryWiped, RecordOf(f, "manually_cleared"))
  }

  /** `order` lists each of `keys` once. */
  ghost predicate Lists(order: seq<Key>, keys: set<Key>) {
    |order| == |keys| && forall k :: k in order <==> k in keys
  }

  ghost function Wipes(faults: map<Key, Fault>, order: seq<Key>, now: int): seq<Event>
    requires forall k :: k in order ==> k in faults
  {
    if order == [] then []
    else Wipes(faults, order[..|order| - 1], now) + [Wipe(faults[order[|order| - 1]], now)]
  }

  lemma ListMore(faults: map<Key, Fault>, order: seq<Key>, done: set<Key>, k: Key, now: int)
    requires Lists(order, done) && done <= faults.Keys && k in faults && k !in done
    ensures Lists(order + [k], done + {k})
    ensures Wipes(faults, order + [k], now) == Wipes(faults, order, now) + [Wipe(faults[k], now)]
  {
    assert (order + [k])[..|order|] == order;
  }

  /** `log` is `before` and then the wipes of the faults outside `keys`, in the given order. */
  ghost predicate Wiped(
    log: seq<Event>, before: seq<Event>, faults: map<Key, Fault>, keys: set<Key>, order: seq<Key>, now: int)
  {
    keys <= faults.Keys && Lists(order, faults.Keys - keys) && log == before + Wipes(faults, order, now)
  }

  lemma WipedMore(
    log: seq<Event>, before: seq<Event>, faults: map<Key, Fault>, keys: set<Key>, order: seq<Key>, k: Key, now: int)
    requires Wiped(log, before, faults, keys, order, now) && k in keys
    ensures Wiped(log + [Wipe(faults[k], now)], before, faults, keys - {k}, order + [k], now)
  {
    var done := faults.Keys - keys;
    assert faults.Keys - (keys - {k}) == done + {k};
    ListMore(faults, order, done, k, now);
    ConcatAssociative(before, Wipes(faults, order, now), [Wipe(faults[k], now)]);
  }

  /** `log` is `before` and then events of the liveness watch. */
  ghost predicate Watched(before: seq<Event>, log: seq<Event>) {
    before <= log && forall i :: |before| <= i < |log| ==> IsWatch(log[i])
  }

  class Journal {
    var log: seq<Event>
    var lastSeen: map<int, int>
    var lost: set<int>
    var busSilent: bool
    var firstCheck: Instant
    var counters: map<string, real>
    var faults: map<Key, Fault>
    /** Where in the log this process began. */
    ghost const start: nat

    ghost function Alive(): Live
      reads this
    {
      Live(lastSeen, lost, busSilent, firstCheck)
    }

    ghost function Remembered(): Memory
      reads this
    {
      Memory(faults, counters)
    }

    ghost predicate Valid()
      reads this
    {
      && Replay(log) == Remembered()
      && start <= |log| && Grammatical(log[start..])
      && ReadAll(log[start..]) == Watch(busSilent, lost)
      && FaultLog(log, start)
    }

    /** `OpenJournal` on a log that exists or is empty. */
    constructor (existing: seq<Event>)
      ensures Valid() && log == existing && start == |existing|
      ensures Alive() == FRESH && Remembered() == Replay(existing)
    {
      log, lastSeen, lost, busSilent, firstCheck := existing, map[], {}, false, Zero;
      counters, faults := map[], map[];
      start := |existing|;
      new;
      for i := 0 to |existing|
        invariant Remembered() == Replay(existing[..i])
        invariant log == existing && Alive() == FRESH
      {
        var e := existing[i];
        if e.PowerCounters? {
          counters := e.values;
        }
        if e.FaultEvent? {
          match e.kind {
            case HistoryWiped =>
              faults := faults - {KeyOf(e.fault.code, e.fault.time)};
            case _ =>
              var f := FromRecord(e.fault);
              faults := faults[KeyOfFault(f) := f];
          }
        }
        assert existing[..i + 1][..i] == existing[..i];
      }
      assert existing[..|existing|] == existing;
    }

    /** `append`. */
    method Append(e: Event)
      requires start <= |log| && Grammatical(log[start..]) && InOrder(ReadAll(log[start..]), e)
      requires FaultLog(log, start) && FaultInOrder(Replay(log), e)
      modifies this`log
      ensures log == old(log) + [e] && Replay(log) == ReplayStep(Replay(old(log)), e) && FaultLog(log, start)
      ensures Grammatical(log[start..]) && ReadAll(log[start..]) == Read(ReadAll(old(log)[start..]), e)
    {
      GrammaticalAppend(log[start..], e);
      FaultLogAppend(log, start, e);
      ReplayAppend(log, e);
      assert (log + [e])[start..] == log[start..] + [e];
      log := log + [e];
    }

    /** The bus is heard again. */
    method Wake(now: int)
      requires Valid() && busSilent
      modifies this`log, this`busSilent
      ensures Valid() && !busSilent && log == old(log) + [BusRecovered(now)]
    {
      busSilent := false;
      Append(BusRecovered(now));
    }

    /** A lost device is heard again. */
    method Find(addr: int, now: int)
      requires Valid() && !busSilent && addr in lost
      modifies this`log, this`lost
      ensures Valid() && lost == old(lost) - {addr} && log == old(log) + [DeviceRecovered(now, addr)]
    {
      lost := lost - {addr};
      Append(DeviceRecovered(now, addr));
    }

    /** `NoteDevice`, and the body it shares with the `activeNow` loop. */
    method NoteDevice(addr: int, now: int)
      requires Valid()
      modifies this`log, this`lastSeen, this`lost, this`busSilent
      ensures Valid() && Alive() == Hear(old(Alive()), addr, now)
      ensures log == old(log) + (if old(busSilent) then [BusRecovered(now)] else []) +
                     (if addr in old(lost) then [DeviceRecovered(now, addr)] else [])
    {
      if busSilent {
        Wake(now);
      }
      if addr in lost {
        Find(addr, now);
      }
      lastSeen := lastSeen[addr := now];
    }

    /** The loop that looks for the most recently heard device. */
    method Newest() returns (newest: Instant)
      ensures lastSeen == map[] ==> newest == Zero
      ensures lastSeen != map[] ==> newest.At? && exists a :: a in lastSeen && lastSeen[a] == newest.t
      ensures forall a :: a in lastSeen ==> newest.At? && lastSeen[a] <= newest.t
    {
      newest := Zero;
      var todo := lastSeen.Keys;
      while todo != {}
        invariant todo <= lastSeen.Keys
        invariant newest.Zero? ==> todo == lastSeen.Keys
        invariant newest.At? ==> exists a :: a in lastSeen && lastSeen[a] == newest.t
        invariant forall a :: a in lastSeen && a !in todo ==> newest.At? && lastSeen[a] <= newest.t
        decreases todo
      {
        SomeMember(todo);
        var a :| a in todo;
        if newest.Before(At(lastSeen[a])) {
          newest := At(lastSeen[a]);
        }
        todo := todo - {a};
      }
    }

    /** A device has not been heard for too long. */
    method Lose(addr: int, now: int)
      requires Valid() && !busSilent && addr !in lost
      modifies this`log, this`lost
      ensures Valid() && lost == old(lost) + {addr} && log == old(log) + [DeviceLost(now, addr)]
    {
      lost := lost + {addr};
      Append(DeviceLost(now, addr));
    }

    /** The loop that marks devices lost, in any order. */
    method MarkLost(now: int)
      requires Valid() && !busSilent
      modifies this`log, this`lost
      ensures Valid() && lost == old(lost) + Unheard(lastSeen, now)
      ensures old(log) <= log
      ensures forall i :: |old(log)| <= i < |log| ==>
        log[i].DeviceLost? && log[i].ts == now && log[i].device in Unheard(lastSeen, now) - old(lost)
    {
      var todo := lastSeen.Keys;
      while todo != {}
        invariant Valid() && todo <= lastSeen.Keys
        invariant lost == old(lost) + (Unheard(lastSeen, now) - todo)
        invariant old(log) <= log
        invariant forall i :: |old(log)| <= i < |log| ==>
          log[i].DeviceLost? && log[i].ts == now && log[i].device in Unheard(lastSeen, now) - old(lost)
        decreases todo
      {
        SomeMember(todo);
        var a :| a in todo;
        if a !in lost && now - lastSeen[a] > DEVICE_LOST_AFTER {
          Lose(a, now);
        }
        todo := todo - {a};
      }
    }

    /** The loop over the devices known to be active. */
    method HearActive(active: seq<int>, now: int)
      requires Valid()
      modifies this`log, this`lastSeen, this`lost, this`busSilent
      ensures Valid() && Alive() == HearAll(old(Alive()), active, now) && Watched(old(log), log)
    {
      for i := 0 to |active|
        invariant Valid() && Alive() == HearAll(old(Alive()), active[..i], now) && Watched(old(log), log)
      {
        assert active[..i + 1][..i] == active[..i];
        NoteDevice(active[i], now);
      }
      assert active[..|active|] == active;
    }

    /** The bus has gone silent. */
    method Silence(now: int)
      requires Valid() && !busSilent
      modifies this`log, this`busSilent
      ensures Valid() && busSilent && log == old(log) + [BusSilent(now)]
    {
      busSilent := true;
      Append(BusSilent(now));
    }

    /** `CheckLiveness`. */
    method CheckLiveness(now: int, active: seq<int>)
      requires Valid()
      modifies this`log, this`lastSeen, this`lost, this`busSilent, this`firstCheck
      ensures Valid() && Alive() == Check(HearAll(old(Alive()), active, now), now)
      ensures Watched(old(log), log)
    {
      HearActive(active, now);
      if lastSeen == map[] {
        if firstCheck.Zero? {
          firstCheck := At(now);
          return;
        }
        if !busSilent && now - firstCheck.t > BUS_SILENT_AFTER {
          Silence(now);
        }
        return;
      }
      var newest := Newest();
      if !busSilent && newest.At? && now - newest.t > BUS_SILENT_AFTER {
        Silence(now);
        return;
      }
      if busSilent {
        return;
      }
      MarkLost(now);
    }

    /** One of the two comparison loops of `NotePowerCounters`: does `b` disagree with a key of `a`? */
    method Disagrees(a: map<string, real>, b: map<string, real>) returns (changed: bool)
      ensures changed <==> exists k :: k in a && Count(b, k) != a[k]
    {
      changed := false;
      var todo := a.Keys;
      while todo != {}
        invariant todo <= a.Keys
        invariant forall k :: k in a && k !in todo ==> Count(b, k) == a[k]
        decreases todo
      {
        var k :| k in todo;
        if Count(b, k) != a[k] {
          changed := true;
          break;
        }
        todo := todo - {k};
      }
    }

    /** `NotePowerCounters`. */
    method NotePowerCounters(vals: map<string, real>, now: int)
      requires Valid()
      modifies this`log, this`counters
      ensures Valid()
      ensures if SameCounters(old(counters), vals) then log == old(log) && counters == old(counters)
              else log == old(log) + [PowerCounters(now, vals)] && counters == vals
    {
      var changed := |counters| != |vals|;
      if !changed {
        changed := Disagrees(vals, counters);
      }
      if !changed {
        changed := Disagrees(counters, vals);
      }
      assert changed <==> !SameCounters(counters, vals);
      if !changed {
        return;
      }
      counters := vals;
      Append(PowerCounters(now, vals));
    }

    /** `ClassifyGap`. */
    method ClassifyGap(vals: map<string, real>, now: int)
      requires Valid()
      modifies this`log
      ensures Valid() && log == old(log) + [OutageClassified(now, Verdict(counters, vals))]
    {
      if |counters| == 0 {
        assert counters == map[];
        Append(OutageClassified(now, NoReference));
        return;
      }
      var gap := MonitoringGap;
      var todo := vals.Keys;
      while todo != {}
        invariant todo <= vals.Keys
        invariant gap == if exists k :: k in vals && k !in todo && k in counters && vals[k] != counters[k]
                         then HvacPowerLoss else MonitoringGap
        decreases todo
      {
        var k :| k in todo;
        if k in counters && vals[k] != counters[k] {
          gap := HvacPowerLoss;
        }
        todo := todo - {k};
      }
      Append(OutageClassified(now, gap));
    }

    /** The log records liveness as it is, and all of the memory but the faults outside `keys`. */
    ghost predicate Wiping(keys: set<Key>)
      reads this
    {
      && Replay(log) == Memory(Only(faults, keys), counters) && Keyed(faults)
      && start <= |log| && Grammatical(log[start..])
      && ReadAll(log[start..]) == Watch(busSilent, lost)
      && FaultLog(log, start)
    }

    method WipeFault(k: Key, ghost keys: set<Key>, now: int)
      requires Wiping(keys) && k in faults && k in keys
      modifies this`log
      ensures Wiping(keys - {k}) && log == old(log) + [Wipe(faults[k], now)]
    {
      Append(Wipe(faults[k], now));
      OnlyWithout(faults, keys, k);
    }

    /** Journal a wipe for every known fault, in any order. */
    method WipeEach(now: int) returns (ghost order: seq<Key>)
      requires Wiping(faults.Keys)
      modifies this`log
      ensures Wiping({}) && Wiped(log, old(log), faults, {}, order, now)
    {
      var todo := faults.Keys;
      order := [];
      while todo != {}
        invariant Wiping(todo) && Wiped(log, old(log), faults, todo, order, now)
        decreases todo
      {
        var k :| k in todo;
        WipedMore(log, old(log), faults, todo, order, k, now);
        WipeFault(k, todo, now);
        order, todo := order + [k], todo - {k};
      }
    }

    /** The whole history is gone. */
    method WipeFaults(now: int) returns (ghost order: seq<Key>)
      requires Valid()
      modifies this`log, this`faults
      ensures Valid() && faults == map[]
      ensures Lists(order, old(faults).Keys) && log == old(log) + Wipes(old(faults), order, now)
    {
      ReplayKeyed(log);
      OnlyAll(faults);
      order := WipeEach(now);
      assert faults.Keys - {} == faults.Keys;
      faults := map[];
    }

    /** `NoteFaults`. */
    method NoteFaults(current: seq<Fault>, now: int) returns (ghost order: seq<Key>)
      requires Valid()
      modifies this`log, this`faults
      ensures Valid()
      ensures current == [] ==>
        faults == map[] && Lists(order, old(faults).Keys) && log == old(log) + Wipes(old(faults), order, now)
      ensures current != [] ==>
        faults == LearnAll(old(faults), current) && log == old(log) + DiffAll(old(faults), current, now)
    {
      if |current| == 0 && |faults| > 0 {
        order := WipeFaults(now);
        return;
      }
      order := [];
      for i := 0 to |current|
        invariant Valid()
        invariant faults == LearnAll(old(faults), current[..i])
        invariant log == old(log) + DiffAll(old(faults), current[..i], now)
      {
        assert current[..i + 1][..i] == current[..i];
        NoteFault(current[i], now);
      }
      assert current[..|current|] == current;
    }

    /** Remember a fault, and journal what has become of it. */
    method File(f: Fault, kind: FaultKind, now: int)
      requires Valid() && Diff(faults, f) == Some(kind)
      modifies this`log, this`faults
      ensures Valid() && faults == old(faults)[KeyOfFault(f) := f]
      ensures log == old(log) + [FaultEvent(now, kind, RecordOf(f, ResolutionOf(kind)))]
    {
      DiffInOrder(faults, counters, f, now);
      RecordRoundTrip(f, ResolutionOf(kind));
      faults := faults[KeyOfFault(f) := f];
      Append(FaultEvent(now, kind, RecordOf(f, ResolutionOf(kind))));
    }

    /** The body of the loop of `NoteFaults`. */
    method NoteFault(f: Fault, now: int)
      requires Valid()
      modifies this`log, this`faults
      ensures Valid() && faults == Learn(old(faults), f) && log == old(log) + DiffEvents(old(faults), f, now)
    {
      var k := KeyOfFault(f);
      if k !in faults {
        File(f, Seen, now);
      } else if faults[k].active && !f.active {
        File(f, Cleared, now);
      } else if f.count > faults[k].count {
        File(f, Recurred, now);
      }
    }
  }

  /** A process that only watches: its flags are those of the history, its log is grammatical. */
  method Monitor(existing: seq<Event>, ops: seq<Op>) returns (j: Journal)
    ensures j.Valid() && fresh(j) && j.start == |existing| && existing <= j.log
    ensures j.Alive() == RunLive(ops)
    ensures Grammatical(j.log[|existing|..])
  {
    j := new Journal(existing);
    for i := 0 to |ops|
      invariant j.Valid() && j.start == |existing| && existing <= j.log
      invariant j.Alive() == RunLive(ops[..i])
    {
      assert ops[..i + 1][..i] == ops[..i];
      match ops[i] {
        case Heard(addr, now) => j.NoteDevice(addr, now);
        case Checked(now, active) => j.CheckLiveness(now, active);
      }
    }
    assert ops[..|ops|] == ops;
  }

  /** A restart recovers the known faults and the counters, and writes nothing. */
  method Restart(j: Journal) returns (k: Journal)
    requires j.Valid()
    ensures k.Valid() && fresh(k) && k.log == j.log
    ensures k.faults == j.faults && k.counters == j.counters && k.Alive() == FRESH
  {
    k := new Journal(j.log);
  }

  /**
   Reading the same fault table again after a restart appends nothing exactly if the table
   settles on what was known before the first read.
   */
  method RereadAfterRestart(j: Journal, current: seq<Fault>, first: int, second: int) returns (k: Journal)
    requires j.Valid()
    modifies j`log, j`faults
    ensures k.Valid() && j.log <= k.log
    ensures k.log == j.log <==> Settles(old(j.faults), current)
    ensures k.log == j.log ==> k.faults == j.faults
  {
    ghost var known := j.faults;
    var _ := j.NoteFaults(current, first);
    k := Restart(j);
    var _ := k.NoteFaults(current, second);
    if current != [] {
      RereadSilentExactly(known, current, second);
      if Settles(known, current) {
        RereadIsNoNews(known, current, second);
      }
    }
  }
}
