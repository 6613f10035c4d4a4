/** The records of the event journal and what replaying them recovers (state/journal.go). */
module Events {
  import opened Basics

  /** One fault-history entry. */
  datatype Fault = Fault(code: int, source: SourceByte, time: int, active: bool, count: int)

  type SourceByte = n: nat | n < 256

  /** A fault as it is journaled: the source in hex, and how it was resolved. */
  datatype FaultRecord = FaultRecord(code: int, source: string, time: int, count: int, active: bool, resolution: string)

  datatype FaultKind = Seen | Recurred | Cleared | HistoryWiped

  datatype Gap = NoReference | MonitoringGap | HvacPowerLoss

  datatype Event =
    | PowerCounters(ts: int, values: map<string, real>)
    | FaultEvent(ts: int, kind: FaultKind, fault: FaultRecord)
    | BusSilent(ts: int)
    | BusRecovered(ts: int)
    | DeviceLost(ts: int, device: int)
    | DeviceRecovered(ts: int, device: int)
    | OutageClassified(ts: int, gap: Gap)

  /** The events of the liveness watch. */
  predicate IsWatch(e: Event) {
    e.BusSilent? || e.BusRecovered? || e.DeviceLost? || e.DeviceRecovered?
  }

  // ----- Fault identity and records -----

  /** `faultKey`: the code, and the first time to the second, which is all RFC 3339 shows. */
  datatype Key = Key(code: int, second: int)

  function KeyOf(code: int, time: int): Key {
    Key(code, time / SECOND)
  }

  function KeyOfFault(f: Fault): Key {
    KeyOf(f.code, f.time)
  }

  function HexDigit(d: nat): char
    requires d < 16
  {
    if d < 10 then '0' + d as char else 'a' + (d - 10) as char
  }

  function HexValue(c: char): Option<nat> {
    if '0' <= c <= '9' then Some((c - '0') as int)
    else if 'a' <= c <= 'f' then Some((c - 'a') as int + 10)
    else if 'A' <= c <= 'F' then Some((c - 'A') as int + 10)
    else None
  }

  /** `%02x` of a byte. */
  function Hex(b: SourceByte): string {
    [HexDigit(b / 16), HexDigit(b % 16)]
  }

  /** The two digits are lower-case, the high one first. */
  lemma HexDigitsOf(b: SourceByte)
    ensures var digits := "0123456789abcdef";
            |Hex(b)| == 2 && Hex(b) == [digits[b / 16], digits[b % 16]]
  {
  }

  /** The digits of `s` as a number, if all are hex digits. */
  function HexDigits(s: string): Option<nat> {
    if s == "" then Some(0)
    else
      match (HexDigits(s[..|s| - 1]), HexValue(s[|s| - 1]))
      case (Some(n), Some(d)) => Some(16 * n + d)
      case _ => None
  }

  /** `strconv.ParseUint(s, 16, 8)`, an error giving 0 as `faultFromRecord` has it. */
  function ParseSource(s: string): SourceByte {
    var n := HexDigits(s);
    if s != "" && n.Some? && n.value < 256 then n.value else 0
  }

  function RecordOf(f: Fault, resolution: string): FaultRecord {
    FaultRecord(f.code, Hex(f.source), f.time, f.count, f.active, resolution)
  }

  function FromRecord(r: FaultRecord): Fault {
    Fault(r.code, ParseSource(r.source), r.time, r.active, r.count)
  }

  /** A journaled fault reads back as it was. */
  lemma RecordRoundTrip(f: Fault, resolution: string)
    ensures FromRecord(RecordOf(f, resolution)) == f
  {
    var s := Hex(f.source);
    assert s[..1] == [s[0]] && s[..1][..0] == "";
    assert HexDigits("") == Some(0);
    assert HexDigits(s[..1]) == Some(f.source / 16);
  }

  // ----- Replay -----

  /** What the journal remembers across restarts. */
  datatype Memory = Memory(faults: map<Key, Fault>, counters: map<string, real>)

  const EMPTY := Memory(map[], map[])

  function ReplayStep(m: Memory, e: Event): Memory {
    match e
    case PowerCounters(_, values) => m.(counters := values)
    case FaultEvent(_, HistoryWiped, r) => m.(faults := m.faults - {KeyOf(r.code, r.time)})
    case FaultEvent(_, _, r) => m.(faults := m.faults[KeyOfFault(FromRecord(r)) := FromRecord(r)])
    case _ => m
  }

  function Replay(log: seq<Event>): Memory {
    if log == [] then EMPTY else ReplayStep(Replay(log[..|log| - 1]), log[|log| - 1])
  }

  lemma ReplayAppend(log: seq<Event>, e: Event)
    ensures Replay(log + [e]) == ReplayStep(Replay(log), e)
  {
    assert (log + [e])[..|log|] == log;
  }

  /** Every known fault is filed under its own key. */
  ghost predicate Keyed(faults: map<Key, Fault>) {
    forall k :: k in faults ==> KeyOfFault(faults[k]) == k
  }

  lemma {:induction false} ReplayKeyed(log: seq<Event>)
    ensures Keyed(Replay(log).faults)
  {
    if log != [] {
      ReplayKeyed(log[..|log| - 1]);
    }
  }

  /** The second a time falls in. */
  predicate InSecond(time: int, s: int) {
    s * SECOND <= time < (s + 1) * SECOND
  }

  /** Faults are one and the same exactly if they share the code and the second of first occurrence. */
  lemma SameFaultExactly(f: Fault, g: Fault)
    ensures KeyOfFault(f) == KeyOfFault(g) <==>
      f.code == g.code && exists s :: InSecond(f.time, s) && InSecond(g.time, s)
  {
    assert InSecond(f.time, f.time / SECOND) && InSecond(g.time, g.time / SECOND);
  }

  // ----- The grammar of fault events -----

  /** The event is in order, given what is remembered: it says what has become of its fault. */
  predicate FaultInOrder(m: Memory, e: Event) {
    match e
    case FaultEvent(_, kind, r) =>
      var k := KeyOf(r.code, r.time);
      (match kind
       case Seen => k !in m.faults && r.resolution == ""
       case Cleared => k in m.faults && m.faults[k].active && !r.active && r.resolution == "self_cleared"
       case Recurred =>
         k in m.faults && r.count > m.faults[k].count && !(m.faults[k].active && !r.active) && r.resolution == ""
       case HistoryWiped => k in m.faults && r == RecordOf(m.faults[k], "manually_cleared"))
    case _ => true
  }

  /** From `start` on, every fault event is in order. */
  predicate FaultLog(log: seq<Event>, start: nat) {
    |log| <= start ||
    (FaultLog(log[..|log| - 1], start) && FaultInOrder(Replay(log[..|log| - 1]), log[|log| - 1]))
  }

  lemma FaultLogAppend(log: seq<Event>, start: nat, e: Event)
    requires FaultLog(log, start) && FaultInOrder(Replay(log), e)
    ensures FaultLog(log + [e], start)
  {
    assert (log + [e])[..|log|] == log;
  }

  lemma {:induction false} FaultLogAt(log: seq<Event>, start: nat, i: nat)
    requires FaultLog(log, start) && start <= i < |log|
    ensures FaultInOrder(Replay(log[..i]), log[i])
  {
    var n := |log| - 1;
    if i < n {
      FaultLogAt(log[..n], start, i);
      assert log[..n][..i] == log[..i];
    }
  }

  /** The event concerns the fault filed under `k`. */
  predicate Concerns(e: Event, kind: FaultKind, k: Key) {
    e.FaultEvent? && e.kind == kind && KeyOf(e.fault.code, e.fault.time) == k
  }

  /** A fault that has been seen is known until its history is wiped. */
  lemma {:induction false} KnownUntilWiped(log: seq<Event>, i: nat, m: nat, k: Key)
    requires i < m <= |log| && Concerns(log[i], Seen, k)
    requires forall h :: i < h < m ==> !Concerns(log[h], HistoryWiped, k)
    ensures k in Replay(log[..m]).faults
  {
    assert log[..m][..m - 1] == log[..m - 1];
    if m > i + 1 {
      KnownUntilWiped(log, i, m - 1, k);
      assert !Concerns(log[m - 1], HistoryWiped, k);
    }
  }

  /** In a process's log a fault is seen again only after its history was wiped. */
  lemma SeenAgainAfterWipe(log: seq<Event>, start: nat, i: nat, m: nat, k: Key)
    requires FaultLog(log, start) && start <= i < m < |log|
    requires Concerns(log[i], Seen, k) && Concerns(log[m], Seen, k)
    ensures exists h :: i < h < m && Concerns(log[h], HistoryWiped, k)
  {
    FaultLogAt(log, start, m);
    if forall h :: i < h < m ==> !Concerns(log[h], HistoryWiped, k) {
      KnownUntilWiped(log, i, m, k);
    }
  }

  // ----- Diffing a fault read -----

  /** What a fault of a fresh read means against what is known: the switch of `NoteFaults`. */
  function Diff(known: map<Key, Fault>, f: Fault): Option<FaultKind> {
    var k := KeyOfFault(f);
    if k !in known then Some(Seen)
    else if known[k].active && !f.active then Some(Cleared)
    else if f.count > known[k].count then Some(Recurred)
    else None
  }

  function Learn(known: map<Key, Fault>, f: Fault): map<Key, Fault> {
    if Diff(known, f).Some? then known[KeyOfFault(f) := f] else known
  }

  function ResolutionOf(kind: FaultKind): string {
    match kind
    case Cleared => "self_cleared"
    case HistoryWiped => "manually_cleared"
    case _ => ""
  }

  function DiffEvents(known: map<Key, Fault>, f: Fault, now: int): seq<Event> {
    match Diff(known, f)
    case Some(kind) => [FaultEvent(now, kind, RecordOf(f, ResolutionOf(kind)))]
    case None => []
  }

  /** What a read journals of a fault is in order. */
  lemma DiffInOrder(known: map<Key, Fault>, counters: map<string, real>, f: Fault, now: int)
    requires Diff(known, f).Some?
    ensures FaultInOrder(Memory(known, counters), DiffEvents(known, f, now)[0])
  {
  }

  /** The known faults after a read. */
  function LearnAll(known: map<Key, Fault>, current: seq<Fault>): map<Key, Fault> {
    if current == [] then known
    else Learn(LearnAll(known, current[..|current| - 1]), current[|current| - 1])
  }

  function DiffAll(known: map<Key, Fault>, current: seq<Fault>, now: int): seq<Event> {
    if current == [] then []
    else
      var rest := current[..|current| - 1];
      DiffAll(known, rest, now) + DiffEvents(LearnAll(known, rest), current[|current| - 1], now)
  }

  lemma {:induction false} NoNewsNoChange(known: map<Key, Fault>, current: seq<Fault>, now: int)
    requires forall i :: 0 <= i < |current| ==> Diff(known, current[i]).None?
    ensures LearnAll(known, current) == known && DiffAll(known, current, now) == []
  {
    if current != [] {
      NoNewsNoChange(known, current[..|current| - 1], now);
    }
  }

  /** A read journals nothing only if nothing in it is news. */
  lemma {:induction false} SilentNoNews(known: map<Key, Fault>, current: seq<Fault>, now: int)
    requires DiffAll(known, current, now) == []
    ensures forall i :: 0 <= i < |current| ==> Diff(known, current[i]).None?
  {
    if current != [] {
      var rest := current[..|current| - 1];
      SilentNoNews(known, rest, now);
      assert forall i :: 0 <= i < |rest| ==> rest[i] == current[i];
      NoNewsNoChange(known, rest, now);
    }
  }

  // ----- When a second read is silent -----

  /** Entry `i` is a fault filed under `k`. */
  predicate Files(current: seq<Fault>, i: int, k: Key) {
    0 <= i < |current| && KeyOfFault(current[i]) == k
  }

  predicate FilesCleared(current: seq<Fault>, i: int, k: Key) {
    Files(current, i, k) && !current[i].active
  }

  /** A cleared fault under `k`, known or in the table, has a count of `count` or more. */
  ghost predicate Outranked(known: map<Key, Fault>, current: seq<Fault>, k: Key, count: int) {
    || (k in known && !known[k].active && known[k].count >= count)
    || exists j :: FilesCleared(current, j, k) && current[j].count >= count
  }

  /**
   Wherever the table has both active and cleared entries under one key, no active one has a
   count above all the cleared ones.
   */
  ghost predicate Settles(known: map<Key, Fault>, current: seq<Fault>) {
    forall i, k :: Files(current, i, k) && current[i].active && (exists j :: FilesCleared(current, j, k)) ==>
      Outranked(known, current, k, current[i].count)
  }

  /** What is known under a key after a read was known before or is in the table. */
  lemma {:induction false} LearnedFrom(known: map<Key, Fault>, current: seq<Fault>, k: Key)
    requires k in LearnAll(known, current)
    ensures (k in known && LearnAll(known, current)[k] == known[k])
         || exists j :: Files(current, j, k) && current[j] == LearnAll(known, current)[k]
  {
    if current != [] {
      var n := |current| - 1;
      var before := LearnAll(known, current[..n]);
      if k in before && LearnAll(known, current)[k] == before[k] {
        LearnedFrom(known, current[..n], k);
        if j :| Files(current[..n], j, k) && current[..n][j] == before[k] {
          assert Files(current, j, k) && current[j] == before[k];
        }
      } else {
        assert Files(current, n, k);
      }
    }
  }

  lemma {:induction false} LearnsAll(known: map<Key, Fault>, current: seq<Fault>, k: Key, i: int)
    requires k in known || Files(current, i, k)
    ensures k in LearnAll(known, current)
  {
    if current != [] {
      var n := |current| - 1;
      if k in known || i < n {
        assert i < n && k !in known ==> Files(current[..n], i, k);
        LearnsAll(known, current[..n], k, i);
      }
    }
  }

  /** A cleared fault with a count no later entry exceeds stays as it is. */
  lemma {:induction false} Sticks(known: map<Key, Fault>, current: seq<Fault>, n: nat, k: Key)
    requires n <= |current| && k in LearnAll(known, current[..n]) && !LearnAll(known, current[..n])[k].active
    requires forall i :: n <= i && Files(current, i, k) ==> current[i].count <= LearnAll(known, current[..n])[k].count
    ensures k in LearnAll(known, current) && LearnAll(known, current)[k] == LearnAll(known, current[..n])[k]
    decreases |current| - n
  {
    if n == |current| {
      assert current[..n] == current;
    } else {
      var m := |current| - 1;
      var rest := current[..m];
      assert rest[..n] == current[..n];
      forall i | n <= i && Files(rest, i, k) ensures rest[i].count <= LearnAll(known, rest[..n])[k].count {
        assert Files(current, i, k);
      }
      Sticks(known, rest, n, k);
      if KeyOfFault(current[m]) == k {
        assert Files(current, m, k);
      }
    }
  }

  /** Without cleared entries under a key, its count only grows. */
  lemma {:induction false} ActivesCount(known: map<Key, Fault>, current: seq<Fault>, k: Key, i: int)
    requires Files(current, i, k) && forall j :: !FilesCleared(current, j, k)
    ensures k in LearnAll(known, current) && LearnAll(known, current)[k].count >= current[i].count
  {
    var n := |current| - 1;
    var rest := current[..n];
    if i < n {
      forall j ensures !FilesCleared(rest, j, k) {
        assert !FilesCleared(current, j, k);
      }
      assert Files(rest, i, k);
      ActivesCount(known, rest, k, i);
      assert !FilesCleared(current, n, k);
    } else {
      assert !FilesCleared(current, n, k);
    }
  }

  /** The cleared entry of a key with the highest count. */
  lemma {:induction false} HighestCleared(current: seq<Fault>, k: Key, i: int) returns (m: int)
    requires FilesCleared(current, i, k)
    ensures FilesCleared(current, m, k)
    ensures forall j :: FilesCleared(current, j, k) ==> current[j].count <= current[m].count
  {
    var n := |current| - 1;
    var rest := current[..n];
    if j :| FilesCleared(rest, j, k) {
      m := HighestCleared(rest, k, j);
      assert FilesCleared(current, m, k);
      if FilesCleared(current, n, k) && current[n].count > current[m].count {
        m := n;
      }
      forall h | FilesCleared(current, h, k) ensures current[h].count <= current[m].count {
        assert h < n ==> FilesCleared(rest, h, k);
      }
    } else {
      m := n;
      forall h | FilesCleared(current, h, k) ensures h == n {
        assert h < n ==> FilesCleared(rest, h, k);
      }
    }
  }

  /** After the highest cleared entry, if no active one is above it, the fault is cleared for good. */
  lemma ClearedLast(known: map<Key, Fault>, current: seq<Fault>, k: Key, m: int)
    requires FilesCleared(current, m, k)
    requires forall i :: Files(current, i, k) ==> current[i].count <= current[m].count
    ensures var after := LearnAll(known, current);
            k in after && !after[k].active && after[k].count >= current[m].count
  {
    var upTo := current[..m + 1];
    assert upTo[..m] == current[..m] && upTo[m] == current[m];
    var v := LearnAll(known, upTo);
    assert k in v && !v[k].active && v[k].count >= current[m].count;
    Sticks(known, current, m + 1, k);
  }

  /** Every fault of a table that settles, once learned, is no longer news. */
  lemma LearnedIsNoNews(known: map<Key, Fault>, current: seq<Fault>, i: nat)
    requires Settles(known, current) && i < |current|
    ensures Diff(LearnAll(known, current), current[i]).None?
  {
    var k := KeyOfFault(current[i]);
    assert Files(current, i, k);
    if c :| FilesCleared(current, c, k) {
      var m := HighestCleared(current, k, c);
      if a :| Files(current, a, k) && current[a].count > current[m].count {
        assert Outranked(known, current, k, current[a].count);
        KnownOutranks(known, current, k, m, a);
      } else {
        assert forall h :: Files(current, h, k) ==> current[h].count <= current[m].count;
        ClearedLast(known, current, k, m);
        assert current[i].count <= current[m].count;
      }
    } else {
      assert !FilesCleared(current, i, k);
      ActivesCount(known, current, k, i);
    }
  }

  /** Where an active entry is above all cleared ones, the known fault is above them all, and stays. */
  lemma KnownOutranks(known: map<Key, Fault>, current: seq<Fault>, k: Key, m: int, a: int)
    requires Settles(known, current) && FilesCleared(current, m, k)
    requires forall j :: FilesCleared(current, j, k) ==> current[j].count <= current[m].count
    requires Files(current, a, k) && current[a].count > current[m].count
    ensures var after := LearnAll(known, current);
            k in after && !after[k].active && forall i :: Files(current, i, k) ==> current[i].count <= after[k].count
  {
    assert !FilesCleared(current, a, k) && Outranked(known, current, k, current[a].count);
    forall i | Files(current, i, k) ensures current[i].count <= known[k].count {
      if current[i].active {
        assert Outranked(known, current, k, current[i].count);
      } else {
        assert FilesCleared(current, i, k);
      }
    }
    assert current[..0] == [];
    Sticks(known, current, 0, k);
  }

  /** Reading a table again is silent, and changes nothing, if the table settles. */
  lemma RereadIsNoNews(known: map<Key, Fault>, current: seq<Fault>, now: int)
    requires Settles(known, current)
    ensures DiffAll(LearnAll(known, current), current, now) == []
    ensures LearnAll(LearnAll(known, current), current) == LearnAll(known, current)
  {
    forall i | 0 <= i < |current| ensures Diff(LearnAll(known, current), current[i]).None? {
      LearnedIsNoNews(known, current, i);
    }
    NoNewsNoChange(LearnAll(known, current), current, now);
  }

  /** Reading a table again is silent only if the table settles. */
  lemma SilentSettles(known: map<Key, Fault>, current: seq<Fault>, now: int)
    requires DiffAll(LearnAll(known, current), current, now) == []
    ensures Settles(known, current)
  {
    var after := LearnAll(known, current);
    SilentNoNews(after, current, now);
    forall i, k | Files(current, i, k) && current[i].active && exists j :: FilesCleared(current, j, k)
      ensures Outranked(known, current, k, current[i].count)
    {
      LearnsAll(known, current, k, i);
      LearnedFrom(known, current, k);
      var j :| FilesCleared(current, j, k);
      assert Diff(after, current[j]).None? && Diff(after, current[i]).None?;
      assert !after[k].active && after[k].count >= current[i].count;
      if h :| Files(current, h, k) && current[h] == after[k] {
        assert FilesCleared(current, h, k);
      }
    }
  }

  /**
   For every known set and every table: reading the table a second time is silent exactly if
   the table settles on what was known.
   */
  lemma RereadSilentExactly(known: map<Key, Fault>, current: seq<Fault>, now: int)
    ensures DiffAll(LearnAll(known, current), current, now) == [] <==> Settles(known, current)
  {
    if Settles(known, current) {
      RereadIsNoNews(known, current, now);
    } else if DiffAll(LearnAll(known, current), current, now) == [] {
      SilentSettles(known, current, now);
    }
  }

  ghost predicate DistinctKeys(current: seq<Fault>) {
    forall i, j :: 0 <= i < j < |current| ==> KeyOfFault(current[i]) != KeyOfFault(current[j])
  }

  lemma OneEntry(current: seq<Fault>, i: int, j: int, k: Key)
    requires DistinctKeys(current) && Files(current, i, k) && Files(current, j, k)
    ensures i == j
  {
  }

  /** Without duplicate keys a table settles whatever was known; so does one that settles on nothing. */
  lemma SettlesAnyway(known: map<Key, Fault>, current: seq<Fault>)
    requires DistinctKeys(current) || Settles(map[], current)
    ensures Settles(known, current)
  {
    forall i, k | Files(current, i, k) && current[i].active && exists j :: FilesCleared(current, j, k)
      ensures Outranked(known, current, k, current[i].count)
    {
      var j :| FilesCleared(current, j, k);
      if Settles(map[], current) {
        assert Outranked(map[], current, k, current[i].count);
      } else {
        OneEntry(current, i, j, k);
      }
    }
  }

  /** A second read is silent whatever was known exactly if the table settles by itself. */
  lemma RereadAlwaysSilent(current: seq<Fault>, now: int)
    ensures (forall known :: DiffAll(LearnAll(known, current), current, now) == []) <==> Settles(map[], current)
  {
    RereadSilentExactly(map[], current, now);
    forall known | Settles(map[], current) ensures DiffAll(LearnAll(known, current), current, now) == [] {
      SettlesAnyway(known, current);
      RereadSilentExactly(known, current, now);
    }
  }

  /** A table that is news on every read: reading it again journals again, and changes nothing. */
  lemma DuplicateKeysAreNews(now: int)
    ensures var cur := [Fault(1, 0, 0, true, 1), Fault(1, 0, 0, false, 1), Fault(1, 0, 0, true, 2)];
            var known := LearnAll(map[], cur);
            DiffAll(known, cur, now) != [] && LearnAll(known, cur) == known
  {
    var a, b, c := Fault(1, 0, 0, true, 1), Fault(1, 0, 0, false, 1), Fault(1, 0, 0, true, 2);
    var cur, k := [a, b, c], KeyOfFault(a);
    assert cur[..2] == [a, b] && [a, b][..1] == [a] && [a][..0] == [];
    assert LearnAll(map[], [a]) == map[k := a];
    assert LearnAll(map[], [a, b]) == map[k := b];
    var known := LearnAll(map[], cur);
    assert known == map[k := c];
    assert LearnAll(known, [a]) == known;
    assert LearnAll(known, [a, b]) == map[k := b];
    assert DiffEvents(LearnAll(known, [a]), b, now) != [];
    assert DiffAll(known, [a, b], now) != [];
  }

  // ----- Classifying an outage -----

  /** What the counters seen after a restart say about the outage, given the last journaled ones. */
  function Verdict(reference: map<string, real>, vals: map<string, real>): Gap {
    if reference == map[] then NoReference
    else if exists k :: k in vals && k in reference && vals[k] != reference[k] then HvacPowerLoss
    else MonitoringGap
  }
}
