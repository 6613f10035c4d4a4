/**
 Device liveness as state/journal.go tracks it: incremental flags, proved equal to their
 definitions over the whole history, and the grammar of the events they journal.
 */
module Liveness {
  import opened Basics
  import opened Events

  const DEVICE_LOST_AFTER := 30 * SECOND
  const BUS_SILENT_AFTER := 60 * SECOND

  datatype Live = Live(lastSeen: map<int, int>, lost: set<int>, silent: bool, firstCheck: Instant)

  const FRESH := Live(map[], {}, false, Zero)

  // ----- Specification -----

  /** `noteLocked`, events aside. */
  function Hear(l: Live, addr: int, now: int): Live {
    l.(silent := false, lost := l.lost - {addr}, lastSeen := l.lastSeen[addr := now])
  }

  function HearAll(l: Live, active: seq<int>, now: int): Live {
    if active == [] then l
    else Hear(HearAll(l, active[..|active| - 1], now), active[|active| - 1], now)
  }

  /** Every device was last heard more than `limit` before `now`. */
  predicate AllOlder(lastSeen: map<int, int>, now: int, limit: int) {
    forall a :: a in lastSeen ==> now - lastSeen[a] > limit
  }

  function Unheard(lastSeen: map<int, int>, now: int): set<int> {
    set a | a in lastSeen && now - lastSeen[a] > DEVICE_LOST_AFTER
  }

  /** `CheckLiveness` after its `activeNow` loop, events aside. */
  function Check(l: Live, now: int): Live {
    if l.lastSeen == map[] then
      if l.firstCheck.Zero? then l.(firstCheck := At(now))
      else if !l.silent && now - l.firstCheck.t > BUS_SILENT_AFTER then l.(silent := true)
      else l
    else if !l.silent && AllOlder(l.lastSeen, now, BUS_SILENT_AFTER) then l.(silent := true)
    else if l.silent then l
    else l.(lost := l.lost + Unheard(l.lastSeen, now))
  }

  // ----- The flags mean what they say -----

  datatype Op = Heard(addr: int, now: int) | Checked(now: int, active: seq<int>)

  function RunLive(ops: seq<Op>): Live {
    if ops == [] then FRESH
    else
      var l := RunLive(ops[..|ops| - 1]);
      match ops[|ops| - 1]
      case Heard(addr, now) => Hear(l, addr, now)
      case Checked(now, active) => Check(HearAll(l, active, now), now)
  }

  /** When each device was last heard, by the history alone. */
  function LastHeard(ops: seq<Op>): map<int, int> {
    if ops == [] then map[]
    else
      var m := LastHeard(ops[..|ops| - 1]);
      match ops[|ops| - 1]
      case Heard(addr, now) => m[addr := now]
      case Checked(now, active) => m + map a | a in active :: now
  }

  ghost predicate Sorted(ops: seq<Op>) {
    forall i, j :: 0 <= i < j < |ops| ==> ops[i].now <= ops[j].now
  }

  /** What holds at time `now` in every run whose times have not run backwards. */
  ghost predicate Sound(l: Live, now: int) {
    && (forall a :: a in l.lastSeen ==> l.lastSeen[a] <= now)
    && l.lost <= Unheard(l.lastSeen, now)
    && (l.silent ==> AllOlder(l.lastSeen, now, BUS_SILENT_AFTER))
  }

  lemma {:induction false} HearAllSound(l: Live, active: seq<int>, now: int)
    requires Sound(l, now)
    ensures Sound(HearAll(l, active, now), now)
    ensures HearAll(l, active, now).lastSeen == l.lastSeen + map a | a in active :: now
  {
    if active != [] {
      HearAllSound(l, active[..|active| - 1], now);
    }
  }

  lemma CheckSound(l: Live, now: int)
    requires Sound(l, now)
    ensures Sound(Check(l, now), now)
    ensures l.lastSeen != map[] ==>
      && (Check(l, now).silent <==> AllOlder(l.lastSeen, now, BUS_SILENT_AFTER))
      && (!Check(l, now).silent ==> Check(l, now).lost == Unheard(l.lastSeen, now))
  {
  }

  lemma {:induction false} RunSound(ops: seq<Op>)
    requires Sorted(ops)
    ensures RunLive(ops).lastSeen == LastHeard(ops)
    ensures forall now :: (ops == [] || ops[|ops| - 1].now <= now) ==> Sound(RunLive(ops), now)
  {
    if ops != [] {
      var n := |ops| - 1;
      var rest, e := ops[..n], ops[n];
      RunSound(rest);
      var l := RunLive(rest);
      assert Sound(l, e.now);
      if e.Checked? {
        HearAllSound(l, e.active, e.now);
        CheckSound(HearAll(l, e.active, e.now), e.now);
      }
      assert Sound(RunLive(ops), e.now);
    }
  }

  /**
   After every check that follows the first device heard, the bus is silent exactly when
   the newest device was last heard over 60 s ago, and while it is not, the lost devices
   are exactly those unheard for over 30 s.
   */
  lemma FlagsAreExact(ops: seq<Op>)
    requires Sorted(ops) && ops != [] && ops[|ops| - 1].Checked? && LastHeard(ops) != map[]
    ensures var l, now := RunLive(ops), ops[|ops| - 1].now;
            && (l.silent <==> forall a :: a in LastHeard(ops) ==> now - LastHeard(ops)[a] > 60 * SECOND)
            && (!l.silent ==>
                  forall a :: a in l.lost <==> a in LastHeard(ops) && now - LastHeard(ops)[a] > 30 * SECOND)
  {
    var n := |ops| - 1;
    RunSound(ops);
    RunSound(ops[..n]);
    var l := RunLive(ops[..n]);
    assert Sound(l, ops[n].now);
    HearAllSound(l, ops[n].active, ops[n].now);
    CheckSound(HearAll(l, ops[n].active, ops[n].now), ops[n].now);
  }

  lemma HeardIsRemembered(ops: seq<Op>)
    requires ops != []
    ensures var e := ops[|ops| - 1];
            && (forall a :: a in LastHeard(ops[..|ops| - 1]) ==> a in LastHeard(ops))
            && (e.Heard? ==> e.addr in LastHeard(ops))
            && (e.Checked? && e.active != [] ==> e.active[0] in LastHeard(ops))
  {
  }

  lemma NothingHeard(ops: seq<Op>)
    requires ops != [] && LastHeard(ops) == map[]
    ensures LastHeard(ops[..|ops| - 1]) == map[] && ops[|ops| - 1].Checked? && ops[|ops| - 1].active == []
  {
    HeardIsRemembered(ops);
  }

  /**
   While no device has ever been heard, the bus is silent exactly when the first check was over
   60 s ago, and no device is lost.
   */
  lemma {:induction false} NeverHeardExact(ops: seq<Op>)
    requires Sorted(ops) && ops != [] && LastHeard(ops) == map[]
    ensures RunLive(ops).lost == {} && RunLive(ops).lastSeen == map[] && RunLive(ops).firstCheck == At(ops[0].now)
    ensures RunLive(ops).silent <==> ops[|ops| - 1].now - ops[0].now > 60 * SECOND
  {
    var n := |ops| - 1;
    NothingHeard(ops);
    if n > 0 {
      NeverHeardExact(ops[..n]);
      assert ops[..n][n - 1].now <= ops[n].now;
    } else {
      assert RunLive(ops[..n]) == FRESH;
    }
  }

  // ----- The grammar of liveness events -----

  /** A reader of the log: is the bus silent, and which devices are lost? */
  datatype Watch = Watch(silent: bool, lost: set<int>)

  /** The event is in order, given what came before. */
  predicate InOrder(r: Watch, e: Event) {
    match e
    case BusSilent(_) => !r.silent
    case BusRecovered(_) => r.silent
    case DeviceLost(_, a) => !r.silent && a !in r.lost
    case DeviceRecovered(_, a) => !r.silent && a in r.lost
    case _ => true
  }

  function Read(r: Watch, e: Event): Watch {
    match e
    case BusSilent(_) => r.(silent := true)
    case BusRecovered(_) => r.(silent := false)
    case DeviceLost(_, a) => r.(lost := r.lost + {a})
    case DeviceRecovered(_, a) => r.(lost := r.lost - {a})
    case _ => r
  }

  function ReadAll(log: seq<Event>): Watch {
    if log == [] then Watch(false, {}) else Read(ReadAll(log[..|log| - 1]), log[|log| - 1])
  }

  predicate Grammatical(log: seq<Event>) {
    log == [] ||
    (Grammatical(log[..|log| - 1]) && InOrder(ReadAll(log[..|log| - 1]), log[|log| - 1]))
  }

  lemma GrammaticalAppend(log: seq<Event>, e: Event)
    requires Grammatical(log) && InOrder(ReadAll(log), e)
    ensures Grammatical(log + [e]) && ReadAll(log + [e]) == Read(ReadAll(log), e)
  {
    assert (log + [e])[..|log|] == log;
  }

  /** The bus events of a log: true for silent, false for recovered. */
  function BusHistory(log: seq<Event>): seq<bool> {
    if log == [] then []
    else
      BusHistory(log[..|log| - 1]) +
      match log[|log| - 1]
      case BusSilent(_) => [true]
      case BusRecovered(_) => [false]
      case _ => []
  }

  /** The events of one device: true for lost, false for recovered. */
  function DeviceHistory(log: seq<Event>, a: int): seq<bool> {
    if log == [] then []
    else
      DeviceHistory(log[..|log| - 1], a) +
      match log[|log| - 1]
      case DeviceLost(_, b) => if a == b then [true] else []
      case DeviceRecovered(_, b) => if a == b then [false] else []
      case _ => []
  }

  /** true, false, true, false, ... */
  predicate Alternates(h: seq<bool>) {
    forall k :: 0 <= k < |h| ==> (h[k] <==> k % 2 == 0)
  }

  lemma {:induction false} HistoriesAlternate(log: seq<Event>, a: int)
    requires Grammatical(log)
    ensures Alternates(BusHistory(log)) && (ReadAll(log).silent <==> |BusHistory(log)| % 2 == 1)
    ensures Alternates(DeviceHistory(log, a)) && (a in ReadAll(log).lost <==> |DeviceHistory(log, a)| % 2 == 1)
  {
    if log != [] {
      HistoriesAlternate(log[..|log| - 1], a);
    }
  }

  predicate IsDeviceEvent(e: Event) { e.DeviceLost? || e.DeviceRecovered? }

  lemma {:induction false} PrefixGrammatical(log: seq<Event>, n: nat)
    requires Grammatical(log) && n <= |log|
    ensures Grammatical(log[..n])
  {
    if n < |log| {
      PrefixGrammatical(log[..|log| - 1], n);
      assert log[..|log| - 1][..n] == log[..n];
    } else {
      assert log[..n] == log;
    }
  }

  lemma {:induction false} StaysSilent(log: seq<Event>, i: nat, m: nat)
    requires i < m <= |log| && log[i].BusSilent?
    requires forall k :: i < k < m ==> !log[k].BusRecovered?
    ensures ReadAll(log[..m]).silent
  {
    assert log[..m][..m - 1] == log[..m - 1];
    if m > i + 1 {
      StaysSilent(log, i, m - 1);
    }
  }

  /** No device event occurs between a bus_silent and its bus_recovered. */
  lemma SilenceHasNoDeviceEvents(log: seq<Event>, i: nat, m: nat)
    requires Grammatical(log) && i < m < |log| && log[i].BusSilent? && IsDeviceEvent(log[m])
    ensures exists k :: i < k < m && log[k].BusRecovered?
  {
    PrefixGrammatical(log, m + 1);
    assert log[..m + 1][..m] == log[..m];
    if forall k :: i < k < m ==> !log[k].BusRecovered? {
      StaysSilent(log, i, m);
    }
  }
}
