/** Whole runs of the SAM scheduler: accounting, spacing, wire safety and fairness. */
module SchedulerRuns {
  import opened Basics
  import opened Frames
  import opened Decoders
  import opened Schedulers

  /** One call from the daemon, with whether the port would take a write made during it. */
  datatype Event = Tick(now: int, written: bool) | Note(frame: Frame, now: int)

  function Step(s: State, e: Event): (t: State)
    requires s.Valid()
    ensures t.Valid() && |t.targets| == |s.targets|
    ensures forall i :: 0 <= i < |s.targets| ==>
      t.targets[i].reg == s.targets[i].reg && t.targets[i].interval == s.targets[i].interval
  {
    match e
    case Tick(now, written) => TickStep(s, now, written)
    case Note(frame, now) => NoteStep(s, frame, now)
  }

  function Run(s: State, events: seq<Event>): (t: State)
    requires s.Valid()
    ensures t.Valid() && |t.targets| == |s.targets|
    decreases |events|
  {
    if events == [] then s else Run(Step(s, events[0]), events[1..])
  }

  /** The target that an event sends, or tries to send, a request for. */
  function AttemptAt(s: State, e: Event): (a: Option<nat>)
    requires s.Valid()
    ensures a.Some? ==> a.value < |s.targets|
  {
    if e.Tick? then Attempt(s, e.now) else None
  }

  /** The times of all write attempts of a run. */
  function AttemptTimes(s: State, events: seq<Event>): seq<int>
    requires s.Valid()
    decreases |events|
  {
    if events == [] then []
    else (if AttemptAt(s, events[0]).Some? then [events[0].now] else []) +
         AttemptTimes(Step(s, events[0]), events[1..])
  }

  // ----- Accounting -----

  predicate AckAt(s: State, e: Event)
    requires s.Valid()
  {
    e.Note? && IsAck(s, e.frame)
  }

  /** How many requests of a run were answered by a matching ACK. */
  function Acks(s: State, events: seq<Event>): nat
    requires s.Valid()
    decreases |events|
  {
    if events == [] then 0
    else (if AckAt(s, events[0]) then 1 else 0) + Acks(Step(s, events[0]), events[1..])
  }

  function Outstanding(s: State): nat { if s.pending.Some? then 1 else 0 }

  lemma {:induction false} AccountingFrom(s: State, events: seq<Event>)
    requires s.Valid()
    ensures |AttemptTimes(s, events)| + s.failures + Outstanding(s)
         == Acks(s, events) + Run(s, events).failures + Outstanding(Run(s, events))
    decreases |events|
  {
    if events != [] {
      AccountingFrom(Step(s, events[0]), events[1..]);
    }
  }

  /** Every write attempt ends as a matched ACK or a failure, or is the one outstanding. */
  lemma Accounting(configs: seq<Config>, events: seq<Event>)
    ensures var s := Initial(configs);
            |AttemptTimes(s, events)| == Acks(s, events) + Run(s, events).failures + Outstanding(Run(s, events))
  {
    AccountingFrom(Initial(configs), events);
  }

  /** The failure counter never falls. */
  lemma {:induction false} FailuresGrow(s: State, events: seq<Event>)
    requires s.Valid()
    ensures s.failures <= Run(s, events).failures
    decreases |events|
  {
    if events != [] {
      FailuresGrow(Step(s, events[0]), events[1..]);
    }
  }

  // ----- Backoff -----

  function Pow2(n: nat): (p: nat)
    ensures p >= 1
  {
    if n == 0 then 1 else 2 * Pow2(n - 1)
  }

  /** The backoff a target has earned by `k` consecutive timeouts and NACKs. */
  function BackoffAfter(k: nat): int {
    if k == 0 then 0
    else if 4 * Pow2(k - 1) < 600 then 4 * Pow2(k - 1) * SECOND
    else 600 * SECOND
  }

  /** The event times out or NACKs a pending request for target `i`. */
  predicate FailsAt(s: State, e: Event, i: nat)
    requires s.Valid()
  {
    s.pending == Some(i) && (if e.Tick? then !Waiting(s, e.now) else IsNack(s, e.frame))
  }

  /** How many timeouts and NACKs target `i` has had since its last ACK, given `k` so far. */
  function Streak(s: State, events: seq<Event>, i: nat, k: nat): nat
    requires s.Valid()
    decreases |events|
  {
    if events == [] then k
    else
      var k' := if FailsAt(s, events[0], i) then k + 1
                else if AckAt(s, events[0]) && s.pending == Some(i) then 0
                else k;
      Streak(Step(s, events[0]), events[1..], i, k')
  }

  lemma NextBackoffDoubles(k: nat)
    ensures NextBackoff(BackoffAfter(k)) == BackoffAfter(k + 1)
  {
    if k > 0 {
      assert Pow2(k) == 2 * Pow2(k - 1);
    }
  }

  lemma {:induction false} BackoffFrom(s: State, events: seq<Event>, i: nat, k: nat)
    requires s.Valid() && i < |s.targets| && s.targets[i].backoff == BackoffAfter(k)
    ensures Run(s, events).targets[i].backoff == BackoffAfter(Streak(s, events, i, k))
    decreases |events|
  {
    if events != [] {
      var e := events[0];
      var k' := if FailsAt(s, e, i) then k + 1 else if AckAt(s, e) && s.pending == Some(i) then 0 else k;
      NextBackoffDoubles(k);
      assert Step(s, e).targets[i].backoff == BackoffAfter(k');
      BackoffFrom(Step(s, e), events[1..], i, k');
    }
  }

  /**
   In every run a target's backoff is 0 after an ACK and min(4 * 2^(k-1), 600) seconds
   after k consecutive timeouts and NACKs; write errors leave it alone.
   */
  lemma BackoffLaw(configs: seq<Config>, events: seq<Event>, i: nat)
    requires i < |configs|
    ensures var s := Initial(configs);
            Run(s, events).targets[i].backoff == BackoffAfter(Streak(s, events, i, 0))
  {
    BackoffFrom(Initial(configs), events, i, 0);
  }

  // ----- Spacing -----

  ghost predicate Spaced(times: seq<int>) {
    forall k :: 0 <= k < |times| - 1 ==> times[k] + 2 * SECOND <= times[k + 1]
  }

  /** Attempts are at least the gap apart, and the first is the gap after the last one before. */
  lemma {:induction false} SpacingFrom(s: State, events: seq<Event>)
    requires s.Valid()
    ensures Spaced(AttemptTimes(s, events))
    ensures s.lastSend.At? && AttemptTimes(s, events) != [] ==>
      s.lastSend.t + 2 * SECOND <= AttemptTimes(s, events)[0]
    decreases |events|
  {
    if events != [] {
      SpacingFrom(Step(s, events[0]), events[1..]);
    }
  }

  /** How many of the times fall in the window from `a` to `a + width`. */
  function CountIn(times: seq<int>, a: int, width: int): nat {
    if times == [] then 0
    else (if a <= times[0] <= a + width then 1 else 0) + CountIn(times[1..], a, width)
  }

  lemma {:induction false} SpacedMeansSparse(times: seq<int>, a: int, width: int)
    requires Spaced(times)
    ensures width >= 0 ==> CountIn(times, a, width) <= width / SEND_GAP + 1
    ensures times != [] && times[0] > a + width ==> CountIn(times, a, width) == 0
  {
    if times != [] {
      var rest := times[1..];
      assert Spaced(rest) by {
        forall k | 0 <= k < |rest| - 1 ensures rest[k] + SEND_GAP <= rest[k + 1] {
          assert times[k + 1] + SEND_GAP <= times[k + 2];
        }
      }
      SpacedMeansSparse(rest, a, width);
      if a <= times[0] <= a + width && rest != [] {
        assert times[0] + SEND_GAP <= times[1];
        SpacedMeansSparse(rest, a + SEND_GAP, width - SEND_GAP);
        CountShift(rest, a, width);
      }
    }
  }

  /** Times that all lie beyond the start of a window do not notice it starting later. */
  lemma {:induction false} CountShift(times: seq<int>, a: int, width: int)
    requires Spaced(times) && times != [] && times[0] >= a + SEND_GAP
    ensures CountIn(times, a, width) == CountIn(times, a + SEND_GAP, width - SEND_GAP)
  {
    var rest := times[1..];
    if rest != [] {
      assert times[0] + SEND_GAP <= times[1];
      forall k | 0 <= k < |rest| - 1 ensures rest[k] + SEND_GAP <= rest[k + 1] {
        assert times[k + 1] + SEND_GAP <= times[k + 2];
      }
      CountShift(rest, a, width);
    }
  }

  /** Any window of length `width` holds at most `width / 2 s + 1` attempts. */
  lemma Spacing(configs: seq<Config>, events: seq<Event>, a: int, width: nat)
    ensures Spaced(AttemptTimes(Initial(configs), events))
    ensures CountIn(AttemptTimes(Initial(configs), events), a, width) <= width / (2 * SECOND) + 1
  {
    SpacingFrom(Initial(configs), events);
    SpacedMeansSparse(AttemptTimes(Initial(configs), events), a, width);
  }

  // ----- Wire safety -----

  /** The request an event puts on the wire, if any. */
  function SentAt(s: State, e: Event): seq<Frame>
    requires s.Valid()
  {
    if AttemptAt(s, e).Some? && e.written then [ReadFrame(s.targets[AttemptAt(s, e).value].reg)] else []
  }

  function BytesAt(s: State, e: Event): seq<Byte>
    requires s.Valid()
  {
    if SentAt(s, e) == [] then [] else Wire(SentAt(s, e)[0])
  }

  /** Every byte a run writes. */
  function SentBytes(s: State, events: seq<Event>): seq<Byte>
    requires s.Valid()
    decreases |events|
  {
    if events == [] then [] else BytesAt(s, events[0]) + SentBytes(Step(s, events[0]), events[1..])
  }

  /** A READ from the SAM to the wall control for one of the registers. */
  ghost predicate IsReadRequest(f: Frame, regs: set<Register>) {
    f.dst == WALL_CONTROL && f.src == SAM && f.op == OP_READ && |f.data| == 3 && f.data in regs
  }

  function Registers(s: State): set<Register> {
    set i | 0 <= i < |s.targets| :: s.targets[i].reg
  }

  lemma SameRegisters(s: State, t: State)
    requires |s.targets| == |t.targets|
    requires forall i :: 0 <= i < |s.targets| ==> t.targets[i].reg == s.targets[i].reg
    ensures Registers(s) == Registers(t)
  {
    forall i | 0 <= i < |s.targets| ensures s.targets[i].reg in Registers(t) && t.targets[i].reg in Registers(s) {
      assert t.targets[i].reg in Registers(t) && s.targets[i].reg in Registers(s);
    }
  }

  /**
   The bytes of a run decode, with no resync and nothing left over, to READ requests
   from the SAM to the wall control for configured registers, and to nothing else.
   */
  lemma {:induction false} WireSafety(s: State, events: seq<Event>)
    requires s.Valid()
    ensures Slides(SentBytes(s, events)) == 0 && Rest(SentBytes(s, events)) == []
    ensures forall f :: f in Scan(SentBytes(s, events)) ==> IsReadRequest(f, Registers(s))
    decreases |events|
  {
    if events != [] {
      var e, t := events[0], Step(s, events[0]);
      WireSafety(t, events[1..]);
      SameRegisters(s, t);
      var rest := SentBytes(t, events[1..]);
      if SentAt(s, e) == [] {
        assert SentBytes(s, events) == rest;
      } else {
        ScanWire(SentAt(s, e)[0], rest);
        assert s.targets[AttemptAt(s, e).value].reg in Registers(s);
      }
    }
  }

  // ----- Fairness -----

  /** Times never run backwards from `clock` on. */
  predicate Sorted(events: seq<Event>, clock: int) {
    events == [] || (clock <= events[0].now && Sorted(events[1..], events[0].now))
  }

  /** No event but perhaps the last attempts target `i`. */
  predicate Passed(s: State, events: seq<Event>, i: nat)
    requires s.Valid()
    decreases |events|
  {
    |events| <= 1 || (AttemptAt(s, events[0]) != Some(i) && Passed(Step(s, events[0]), events[1..], i))
  }

  /** Target `i` has been due since `base` and nobody has sent for it. */
  ghost predicate Overdue(s: State, i: nat, base: int) {
    i < |s.targets| && s.pending != Some(i) && IsDue(s.targets[i], base)
  }

  /** Target `j` cannot be picked before `i` is: it is outstanding, or due strictly later. */
  ghost predicate Served(s: State, j: nat, i: nat)
    requires i < |s.targets|
  {
    j < |s.targets| && (s.pending == Some(j) || s.targets[i].due.Before(s.targets[j].due))
  }

  /** What an event that passes over an overdue target does. */
  lemma PassOver(s: State, e: Event, i: nat, base: int)
    requires s.Valid() && Overdue(s, i, base) && base <= e.now
    requires AttemptAt(s, e) != Some(i)
    ensures Overdue(Step(s, e), i, base)
    ensures forall j :: j != i && Served(s, j, i) ==> Served(Step(s, e), j, i) && AttemptAt(s, e) != Some(j)
    ensures AttemptAt(s, e).Some? ==> Served(Step(s, e), AttemptAt(s, e).value, i)
    ensures e.Tick? && GapOpen(s, e.now) ==> AttemptAt(s, e).Some?
  {
  }

  /** How often a run attempts target `j`. */
  function AttemptsOf(s: State, events: seq<Event>, j: nat): nat
    requires s.Valid()
    decreases |events|
  {
    if events == [] then 0
    else (if AttemptAt(s, events[0]) == Some(j) then 1 else 0) + AttemptsOf(Step(s, events[0]), events[1..], j)
  }

  /**
   Bounded overtaking: from when a target is due until it is attempted, every other
   target is attempted at most once, and not at all if it was already served.
   */
  lemma {:induction false} OvertakenAtMostOnce(s: State, events: seq<Event>, i: nat, j: nat, base: int)
    requires s.Valid() && Overdue(s, i, base) && Sorted(events, base)
    requires AttemptsOf(s, events, i) == 0 && j != i
    ensures AttemptsOf(s, events, j) <= if Served(s, j, i) then 0 else 1
    decreases |events|
  {
    if events != [] {
      PassOver(s, events[0], i, base);
      OvertakenAtMostOnce(Step(s, events[0]), events[1..], i, j, base);
    }
  }

  /** Ticks come at most `delta` apart, the first at most `delta` after `last`. */
  predicate Dense(events: seq<Event>, last: int, delta: int) {
    events == [] ||
    (if events[0].Tick? then events[0].now <= last + delta && Dense(events[1..], events[0].now, delta)
     else Dense(events[1..], last, delta))
  }

  function Below(n: nat): (a: set<nat>)
    ensures |a| == n && forall k :: k in a <==> 0 <= k < n
  {
    if n == 0 then {} else Below(n - 1) + {n - 1}
  }

  lemma {:induction false} Subset(a: set<nat>, b: set<nat>)
    requires a <= b
    ensures |a| <= |b|
  {
    if a != {} {
      var x :| x in a;
      Subset(a - {x}, b - {x});
    }
  }

  /**
   Ticking reached overdue target `i` at `tau`. Each gap since has served one more of the
   others, so the last send is at most `|served|` gaps past `tau`.
   */
  ghost predicate InTurn(s: State, i: nat, tau: int, last: int, delta: nat, served: set<nat>) {
    && s.Valid() && Overdue(s, i, tau) && tau <= last
    && s.lastSend.At? && last - s.lastSend.t < SEND_GAP
    && s.lastSend.t <= tau + |served| * (SEND_GAP + delta)
    && forall j :: j in served ==> j != i && Served(s, j, i)
  }

  /** The next tick in turn is within the deadline. */
  lemma InTurnBound(s: State, i: nat, tau: int, last: int, delta: nat, served: set<nat>, now: int)
    requires InTurn(s, i, tau, last, delta, served) && now <= last + delta
    ensures now <= tau + |s.targets| * (SEND_GAP + delta)
    ensures now <= tau + (|served| + 1) * (SEND_GAP + delta)
  {
    var n, c := |s.targets|, SEND_GAP + delta;
    assert |served + {i}| <= n by { Subset(served + {i}, Below(n)); }
    assert i !in served;
    Product(|served|, n - 1, c);
    Product(n - 1, n, c);
  }

  lemma Product(k: nat, n: nat, c: nat)
    requires k <= n
    ensures k * c <= n * c && (k + 1) * c == k * c + c && (n + 1) * c == n * c + c
  {
  }

  function NewLast(e: Event, last: int): int { if e.Tick? then e.now else last }

  function NewServed(s: State, e: Event, served: set<nat>): set<nat>
    requires s.Valid()
  {
    match AttemptAt(s, e)
    case Some(j) => served + {j}
    case None => served
  }

  lemma InTurnStep(s: State, e: Event, i: nat, tau: int, last: int, delta: nat, served: set<nat>)
    requires InTurn(s, i, tau, last, delta, served) && last <= e.now
    requires AttemptAt(s, e) != Some(i) && (e.Tick? ==> e.now <= last + delta)
    ensures InTurn(Step(s, e), i, tau, NewLast(e, last), delta, NewServed(s, e, served))
  {
    PassOver(s, e, i, tau);
    if AttemptAt(s, e).Some? {
      InTurnBound(s, i, tau, last, delta, served, e.now);
      assert AttemptAt(s, e).value !in served;
    }
  }

  /** A run that is in turn stays within the deadline until it attempts target `i`. */
  lemma {:induction false} ServesInTurn(
    s: State, events: seq<Event>, i: nat, tau: int, clock: int, last: int, delta: nat, served: set<nat>)
    requires InTurn(s, i, tau, last, delta, served) && last <= clock
    requires events != [] && events[|events| - 1].Tick? && Passed(s, events, i)
    requires Sorted(events, clock) && Dense(events, last, delta)
    ensures events[|events| - 1].now <= tau + |s.targets| * (SEND_GAP + delta)
    decreases |events|
  {
    var e, rest := events[0], events[1..];
    if |events| == 1 {
      InTurnBound(s, i, tau, last, delta, served, e.now);
    } else {
      InTurnStep(s, e, i, tau, last, delta, served);
      ServesInTurn(Step(s, e), rest, i, tau, e.now, NewLast(e, last), delta, NewServed(s, e, served));
    }
  }

  /** The first tick that finds target `i` due, and passes it over, starts the turns. */
  lemma TurnsStart(s: State, e: Event, i: nat, base: int, last: int, delta: nat)
    requires s.Valid() && Overdue(s, i, base) && e.Tick? && base <= e.now && AttemptAt(s, e) != Some(i)
    requires s.lastSend.At? ==> s.lastSend.t <= last <= e.now
    ensures InTurn(Step(s, e), i, e.now, e.now, delta, {})
  {
    PassOver(s, e, i, base);
  }

  /** Until then the target just waits. */
  lemma TargetWaits(s: State, e: Event, i: nat, base: int)
    requires s.Valid() && Overdue(s, i, base) && AttemptAt(s, e) != Some(i)
    ensures Overdue(Step(s, e), i, base)
    ensures Step(s, e).lastSend == s.lastSend || (e.Tick? && Step(s, e).lastSend == At(e.now))
  {
  }

  /** A run whose last tick is the first chance at an attempt of `i` is within the deadline. */
  lemma {:induction false} WaitsUntilDeadline(
    s: State, events: seq<Event>, i: nat, base: int, clock: int, last: int, delta: nat)
    requires s.Valid() && Overdue(s, i, base) && last <= base && last <= clock
    requires s.lastSend.At? ==> s.lastSend.t <= last
    requires events != [] && events[|events| - 1].Tick? && Passed(s, events, i)
    requires Sorted(events, clock) && Dense(events, last, delta)
    ensures events[|events| - 1].now <= base + delta + |s.targets| * (SEND_GAP + delta)
    decreases |events|
  {
    var e, rest := events[0], events[1..];
    Product(0, |s.targets|, SEND_GAP + delta);
    if |events| > 1 {
      if e.Tick? && base <= e.now {
        TurnsStart(s, e, i, base, last, delta);
        ServesInTurn(Step(s, e), rest, i, e.now, e.now, e.now, delta, {});
      } else {
        TargetWaits(s, e, i, base);
        WaitsUntilDeadline(Step(s, e), rest, i, base, e.now, NewLast(e, last), delta);
      }
    }
  }

  /** The position of the first event that attempts target `i`. */
  function FirstAttempt(s: State, events: seq<Event>, i: nat): (k: nat)
    requires s.Valid()
    ensures k <= |events|
    decreases |events|
  {
    if events == [] || AttemptAt(s, events[0]) == Some(i) then 0
    else 1 + FirstAttempt(Step(s, events[0]), events[1..], i)
  }

  lemma {:induction false} FirstAttemptIs(s: State, events: seq<Event>, i: nat)
    requires s.Valid()
    ensures var k := FirstAttempt(s, events, i);
            k < |events| ==> AttemptAt(Run(s, events[..k]), events[k]) == Some(i)
    decreases |events|
  {
    var k := FirstAttempt(s, events, i);
    if 0 < k < |events| {
      FirstAttemptIs(Step(s, events[0]), events[1..], i);
      assert events[..k][1..] == events[1..][..k - 1];
    }
  }

  lemma {:induction false} PrefixWaits(
    s: State, events: seq<Event>, i: nat, k: nat, clock: int, last: int, delta: int)
    requires s.Valid() && Sorted(events, clock) && Dense(events, last, delta)
    requires k < |events| && k <= FirstAttempt(s, events, i)
    ensures Sorted(events[..k + 1], clock) && Dense(events[..k + 1], last, delta)
    ensures Passed(s, events[..k + 1], i)
    decreases k
  {
    if k > 0 {
      var e := events[0];
      PrefixWaits(Step(s, e), events[1..], i, k - 1, e.now, NewLast(e, last), delta);
      assert events[..k + 1][1..] == events[1..][..k];
    }
  }

  /** When a target due by `base` has to be attempted, with `n` targets and ticks `delta` apart. */
  function Deadline(n: nat, base: int, delta: nat): int {
    base + delta + n * (SEND_GAP + delta)
  }

  lemma NotLaterThanFirst(
    s: State, events: seq<Event>, i: nat, base: int, clock: int, last: int, delta: nat, k: nat)
    requires s.Valid() && Overdue(s, i, base) && last <= base && last <= clock
    requires s.lastSend.At? ==> s.lastSend.t <= last
    requires Sorted(events, clock) && Dense(events, last, delta)
    requires k < |events| && events[k].Tick? && k <= FirstAttempt(s, events, i)
    ensures events[k].now <= Deadline(|s.targets|, base, delta)
  {
    PrefixWaits(s, events, i, k, clock, last, delta);
    WaitsUntilDeadline(s, events[..k + 1], i, base, clock, last, delta);
  }

  /**
   The deadline: with `n` targets and ticks at most `delta` apart, a target due by `base` is
   attempted by `base + delta + n * (2 s + delta)`, whatever is answered, refused or lost:
   a run that has a tick after that has already attempted it, in time.
   */
  lemma AttemptedByDeadline(
    s: State, events: seq<Event>, i: nat, base: int, clock: int, last: int, delta: nat, m: nat)
    requires s.Valid() && Overdue(s, i, base) && last <= base && last <= clock
    requires s.lastSend.At? ==> s.lastSend.t <= last
    requires Sorted(events, clock) && Dense(events, last, delta)
    requires m < |events| && events[m].Tick? && events[m].now > Deadline(|s.targets|, base, delta)
    ensures exists k :: 0 <= k < m && AttemptAt(Run(s, events[..k]), events[k]) == Some(i)
              && events[k].now <= Deadline(|s.targets|, base, delta)
  {
    var k := FirstAttempt(s, events, i);
    if k >= m {
      NotLaterThanFirst(s, events, i, base, clock, last, delta, m);
    } else {
      FirstAttemptIs(s, events, i);
      NotLaterThanFirst(s, events, i, base, clock, last, delta, k);
    }
  }

  // ----- How long a target rests -----

  /** Target `i` is not to be asked before `until`, and is due from then on. */
  ghost predicate Resting(s: State, i: nat, until: int) {
    i < |s.targets| && s.pending != Some(i) && forall now :: IsDue(s.targets[i], now) <==> until <= now
  }

  lemma RestingStep(s: State, e: Event, i: nat, until: int)
    requires s.Valid() && Resting(s, i, until) && e.now < until
    ensures AttemptAt(s, e) != Some(i) && Resting(Step(s, e), i, until)
  {
    assert Step(s, e).targets[i] == s.targets[i];
  }

  /** No event before `until` attempts a resting target. */
  lemma {:induction false} RestsUntil(s: State, events: seq<Event>, i: nat, until: int)
    requires s.Valid() && Resting(s, i, until) && forall k :: 0 <= k < |events| ==> events[k].now < until
    ensures AttemptsOf(s, events, i) == 0 && Resting(Run(s, events), i, until)
    decreases |events|
  {
    if events != [] {
      RestingStep(s, events[0], i, until);
      RestsUntil(Step(s, events[0]), events[1..], i, until);
    }
  }

  lemma FailureRestsFrom(s: State, e: Event, i: nat, k: nat)
    requires s.Valid() && FailsAt(s, e, i) && s.targets[i].backoff == BackoffAfter(k)
    ensures Resting(Step(s, e), i, e.now + BackoffAfter(k + 1)) && AttemptAt(s, e) != Some(i)
  {
    NextBackoffDoubles(k);
    var until := e.now + BackoffAfter(k + 1);
    assert BackoffAfter(k + 1) > 0 && Fail(s, e.now).targets[i].due == At(until);
    assert !IsDue(Fail(s, e.now).targets[i], e.now);
  }

  /** A target that has failed `k` times running rests for that backoff from the failure on. */
  lemma FailureRests(configs: seq<Config>, before: seq<Event>, e: Event, i: nat)
    requires i < |configs| && FailsAt(Run(Initial(configs), before), e, i)
    ensures var s, k := Run(Initial(configs), before), Streak(Initial(configs), before, i, 0) + 1;
            Resting(Step(s, e), i, e.now + BackoffAfter(k)) && AttemptAt(s, e) != Some(i)
  {
    BackoffLaw(configs, before, i);
    FailureRestsFrom(Run(Initial(configs), before), e, i, Streak(Initial(configs), before, i, 0));
  }

  lemma {:induction false} IntervalsStay(s: State, events: seq<Event>, i: nat)
    requires s.Valid() && i < |s.targets|
    ensures Run(s, events).targets[i].interval == s.targets[i].interval
    decreases |events|
  {
    if events != [] {
      IntervalsStay(Step(s, events[0]), events[1..], i);
    }
  }

  /** A target that has answered rests for its interval, which is at least five seconds. */
  lemma AnswerRests(configs: seq<Config>, before: seq<Event>, e: Event, i: nat)
    requires i < |configs| && AckAt(Run(Initial(configs), before), e)
    requires Run(Initial(configs), before).pending == Some(i)
    ensures var s, interval := Run(Initial(configs), before), configs[i].interval;
            Resting(Step(s, e), i, e.now + (if interval < 5 * SECOND then 5 * SECOND else interval))
  {
    IntervalsStay(Initial(configs), before, i);
  }

  /** A target whose request the port refused rests for two seconds. */
  lemma RefusalRests(s: State, e: Event, i: nat)
    requires s.Valid() && AttemptAt(s, e) == Some(i) && !e.written
    ensures Resting(Step(s, e), i, e.now + 2 * SECOND)
  {
  }

  /**
   After its rest a target is asked again, in time: not before `until`, and with ticks at most
   `delta` apart no later than the deadline counted from then.
   */
  lemma AskedAgain(s: State, events: seq<Event>, i: nat, until: int, clock: int, last: int, delta: nat, m: nat)
    requires s.Valid() && Resting(s, i, until) && last <= until && last <= clock
    requires s.lastSend.At? ==> s.lastSend.t <= last
    requires Sorted(events, clock) && Dense(events, last, delta)
    requires m < |events| && events[m].Tick? && events[m].now > Deadline(|s.targets|, until, delta)
    ensures var k := FirstAttempt(s, events, i);
            k < m && AttemptAt(Run(s, events[..k]), events[k]) == Some(i)
            && until <= events[k].now <= Deadline(|s.targets|, until, delta)
  {
    var k := FirstAttempt(s, events, i);
    assert IsDue(s.targets[i], until);
    if k >= m {
      NotLaterThanFirst(s, events, i, until, clock, last, delta, m);
    } else {
      FirstAttemptIs(s, events, i);
      NotLaterThanFirst(s, events, i, until, clock, last, delta, k);
      if events[k].now < until {
        SortedPrefix(events, clock, k);
        RestsUntil(s, events[..k], i, until);
        RestingStep(Run(s, events[..k]), events[k], i, until);
      }
    }
  }

  lemma {:induction false} SortedPrefix(events: seq<Event>, clock: int, k: nat)
    requires Sorted(events, clock) && k < |events|
    ensures clock <= events[k].now && forall j :: 0 <= j <= k ==> events[j].now <= events[k].now
    decreases |events|
  {
    if k > 0 {
      SortedPrefix(events[1..], events[0].now, k - 1);
      assert forall j :: 1 <= j <= k ==> events[j] == events[1..][j - 1];
    }
  }

  // ----- What ends a request -----

  /** What the wall control answers the SAM about register `reg`: a refusal, or an answer. */
  predicate Refuses(f: Frame) {
    f.src == 0x2001 && f.dst == 0x9201 && f.op == 0x15
  }

  predicate Answers(f: Frame, reg: Register) {
    f.src == 0x2001 && f.dst == 0x9201 && f.op == 0x06 && |f.data| >= 3
    && f.data[0] == reg[0] && f.data[1] == reg[1] && f.data[2] == reg[2]
  }

  /** A request is over exactly with a refusal, an answer for its register, or a tick after two seconds. */
  lemma OverExactly(s: State, e: Event, i: nat)
    requires s.Valid() && s.pending == Some(i)
    ensures FailsAt(s, e, i) <==> if e.Tick? then e.now - s.sentAt >= 2 * SECOND else Refuses(e.frame)
    ensures AckAt(s, e) <==> e.Note? && Answers(e.frame, s.targets[i].reg)
    ensures !FailsAt(s, e, i) && !AckAt(s, e) ==> Step(s, e) == s && AttemptAt(s, e).None?
    ensures FailsAt(s, e, i) ==> Step(s, e).failures >= s.failures + 1
    ensures AckAt(s, e) ==> Step(s, e).failures == s.failures && Step(s, e).pending == None
  {
    if e.Note? && |e.frame.data| >= 3 {
      var d, reg := e.frame.data, s.targets[i].reg;
      assert d[..3] == [d[0], d[1], d[2]] && reg == [reg[0], reg[1], reg[2]];
    }
  }

  /** Without any of these a request stays outstanding, and nothing else is sent. */
  lemma {:induction false} StaysPending(s: State, events: seq<Event>, i: nat)
    requires s.Valid() && s.pending == Some(i)
    requires forall k :: 0 <= k < |events| ==>
      if events[k].Tick? then events[k].now < s.sentAt + 2 * SECOND
      else !Refuses(events[k].frame) && !Answers(events[k].frame, s.targets[i].reg)
    ensures Run(s, events) == s && AttemptTimes(s, events) == []
    decreases |events|
  {
    if events != [] {
      OverExactly(s, events[0], i);
      StaysPending(s, events[1..], i);
    }
  }

  /** A request that the port takes is outstanding from then on. */
  lemma SentIsPending(s: State, e: Event, i: nat)
    requires s.Valid() && AttemptAt(s, e) == Some(i) && e.written
    ensures Step(s, e).pending == Some(i) && Step(s, e).sentAt == e.now
  {
  }

  // ----- The object's runs are these runs -----

  datatype Call = CallTick(now: int) | CallNote(frame: Frame, now: int)

  /** The event is the call, with the port's answer filled in. */
  predicate Matches(c: Call, e: Event) {
    match c
    case CallTick(now) => e.Tick? && e.now == now
    case CallNote(frame, now) => e == Note(frame, now)
  }

  /** One call on a scheduler is one step of the specification, on the wire too. */
  method Invoke(sched: Scheduler, c: Call) returns (ghost e: Event)
    requires sched.Abstract().Valid()
    modifies sched, sched.port
    ensures Matches(c, e)
    ensures sched.Abstract() == Step(old(sched.Abstract()), e)
    ensures sched.port.wire == old(sched.port.wire) + BytesAt(old(sched.Abstract()), e)
  {
    match c {
      case CallTick(now) =>
        ghost var written := sched.Tick(now);
        e := Tick(now, written);
      case CallNote(frame, now) =>
        sched.NoteFrame(frame, now);
        e := Note(frame, now);
    }
  }

  lemma RunCons(s: State, e: Event, events: seq<Event>)
    requires s.Valid()
    ensures Run(s, [e] + events) == Run(Step(s, e), events)
    ensures SentBytes(s, [e] + events) == BytesAt(s, e) + SentBytes(Step(s, e), events)
  {
    assert ([e] + events)[1..] == events;
  }

  /** Any sequence of calls on a scheduler is a run of the specification. */
  method Drive(sched: Scheduler, calls: seq<Call>) returns (ghost events: seq<Event>)
    requires sched.Abstract().Valid()
    modifies sched, sched.port
    ensures |events| == |calls| && forall k :: 0 <= k < |calls| ==> Matches(calls[k], events[k])
    ensures sched.Abstract() == Run(old(sched.Abstract()), events)
    ensures sched.port.wire == old(sched.port.wire) + SentBytes(old(sched.Abstract()), events)
    decreases |calls|
  {
    if calls == [] {
      return [];
    }
    ghost var s, w := sched.Abstract(), sched.port.wire;
    ghost var e := Invoke(sched, calls[0]);
    ghost var b := BytesAt(s, e);
    ghost var rest := Drive(sched, calls[1..]);
    ghost var r := SentBytes(Step(s, e), rest);
    events := [e] + rest;
    RunCons(s, e, rest);
    ConcatAssociative(w, b, r);
  }
}
