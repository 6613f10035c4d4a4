/**
 The running totals of cmd/infinid/main.go: a ticker goroutine and the read loop fold what the
 scheduler and the decoder of the current connection have counted into totals that outlive
 reconnects. Every step between two lock operations is a step of its own here, and the
 theorems range over every interleaving.
 */
module Totals {
  import opened Basics
  import opened Frames
  import Schedulers
  import opened Decoders

  /** Who may hold a lock; `Observer` is any goroutine that only reads the totals. */
  datatype Thread = Ticker | ReadLoop | Observer

  /**
   Where a goroutine is in the block that folds the scheduler's failures. Locals of the
   block (`fails`, `delta`, the total just loaded) live in the constructors.
   */
  datatype Fold =
    | Away
    | Entered
    | Noted
    | Ticked
    | Counted(fails: int)
    | Measured(fails: int, delta: int)
    | Marked(delta: int)
    | Owning(delta: int)
    | Loaded(total: int, delta: int)
    | Stored
    | Released

  /** Where the read loop is. */
  datatype Place =
    | Closed
    | Opened
    | Listening
    | Received(frame: Frame)
    | Tallying(frame: Frame)
    | Tallied(frame: Frame)
    | Folding(frame: Frame, at: Fold)
    | Failed
    | FailedTallying
    | FailedTallied
    | Joining

  type Sched = s: Schedulers.State | s.Valid() witness Schedulers.State([], None, 0, Zero, 0)

  /** A decoder: the bytes its connection delivers, those not yet decoded, and its `Resyncs()`. */
  datatype Tap = Tap(stream: seq<Byte>, left: seq<Byte>, resyncs: nat)

  datatype Daemon = Daemon(
    samEnabled: bool,
    schedMu: Option<Thread>,
    mu: Option<Thread>,
    ticker: Option<Fold>,
    reader: Place,
    stopped: bool,
    scheds: seq<Sched>,
    taps: seq<Tap>,
    lastSchedFailures: int,
    lastResyncs: int,
    samFailures: int,
    crcResyncs: int)

  function Boot(samEnabled: bool): Daemon {
    Daemon(samEnabled, None, None, None, Closed, false, [], [], 0, 0, 0, 0)
  }

  // ----- What the totals should be -----

  function Failures(scheds: seq<Sched>): nat {
    if scheds == [] then 0 else Failures(scheds[..|scheds| - 1]) + scheds[|scheds| - 1].failures
  }

  function Resyncs(taps: seq<Tap>): nat {
    if taps == [] then 0 else Resyncs(taps[..|taps| - 1]) + taps[|taps| - 1].resyncs
  }

  /** The bytes that the scans of all streams move over, as far as they have been decoded. */
  ghost function AllSlides(taps: seq<Tap>): int {
    if taps == [] then 0
    else
      var tap := taps[|taps| - 1];
      AllSlides(taps[..|taps| - 1]) + Slides(tap.stream) - Slides(tap.left)
  }

  // ----- Steps -----

  /** A step of the read loop outside the block, or of the ticker's life. */
  datatype LoopStep =
    | Open(configs: seq<Schedulers.Config>)
    | Listen(stream: seq<Byte>)
    | Next(outcome: Outcome, skipped: nat, left: seq<Byte>)
    | Tally
    | TallyAdd
    | TallyDone
    | StopTicker
    | TickerExit
    | Join

  /** A step inside the block. */
  datatype BlockStep =
    | Enter
    | Note(now: int)
    | Tick(now: int, written: bool)
    | Count
    | Measure
    | Mark
    | Own
    | Load
    | Store
    | Release
    | Leave

  /** An observer takes and releases `mu` with `Look` and `LookAway`. */
  datatype Action = Loop(step: LoopStep) | Block(who: Thread, move: BlockStep) | Look | LookAway

  /** Where `who` is in its folding block. */
  function At(d: Daemon, who: Thread): Fold {
    match who
    case Ticker => if d.ticker.Some? then d.ticker.value else Away
    case ReadLoop => if d.reader.Folding? then d.reader.at else Away
    case Observer => Away
  }

  function Move(d: Daemon, who: Thread, at: Fold): Daemon {
    match who
    case Ticker => if d.ticker.Some? then d.(ticker := Some(at)) else d
    case ReadLoop => if d.reader.Folding? then d.(reader := d.reader.(at := at)) else d
    case Observer => d
  }

  /** Out of the block: the ticker waits for its next tick, the read loop for its next frame. */
  function Depart(d: Daemon, who: Thread): Daemon {
    match who
    case Ticker => if d.ticker.Some? then d.(ticker := Some(Away)) else d
    case ReadLoop => d.(reader := Listening)
    case Observer => d
  }

  function Current(d: Daemon): Sched
    requires d.scheds != []
  {
    d.scheds[|d.scheds| - 1]
  }

  function WithCurrent(d: Daemon, s: Sched): Daemon
    requires d.scheds != []
  {
    d.(scheds := d.scheds[|d.scheds| - 1 := s])
  }

  function CurrentTap(d: Daemon): Tap
    requires d.taps != []
  {
    d.taps[|d.taps| - 1]
  }

  /** The ticker ticks as soon as it is in; the read loop notes its frame first. */
  function BeforeTick(who: Thread): Fold {
    if who.ReadLoop? then Noted else Entered
  }

  ghost predicate LoopEnabled(d: Daemon, a: LoopStep) {
    match a
    case Open(_) => d.reader.Closed?
    case Listen(_) => d.reader.Opened?
    case Next(outcome, skipped, left) =>
      d.reader.Listening? && d.taps != [] && Returns(CurrentTap(d).left, skipped, outcome, left)
    case Tally => (d.reader.Received? || d.reader.Failed?) && d.mu.None?
    case TallyAdd => (d.reader.Tallying? || d.reader.FailedTallying?) && d.taps != []
    case TallyDone => d.reader.Tallied? || d.reader.FailedTallied?
    case StopTicker => d.reader.Joining? && !d.stopped
    case TickerExit => d.stopped && d.ticker == Some(Away)
    case Join => d.reader.Joining? && d.stopped && d.ticker.None?
  }

  ghost function DoLoop(d: Daemon, a: LoopStep): Daemon
    requires LoopEnabled(d, a)
  {
    match a
    case Open(configs) =>
      var e := d.(reader := Opened, lastSchedFailures := 0, stopped := false);
      if d.samEnabled then e.(scheds := d.scheds + [Schedulers.Initial(configs)], ticker := Some(Away)) else e
    case Listen(stream) => d.(reader := Listening, taps := d.taps + [Tap(stream, stream, 0)], lastResyncs := 0)
    case Next(outcome, skipped, left) =>
      var tap := CurrentTap(d);
      d.(taps := d.taps[|d.taps| - 1 := tap.(left := left, resyncs := tap.resyncs + skipped)],
         reader := if outcome.Delivered? then Received(outcome.frame) else Failed)
    case Tally =>
      d.(mu := Some(ReadLoop), reader := if d.reader.Failed? then FailedTallying else Tallying(d.reader.frame))
    case TallyAdd =>
      var resyncs := CurrentTap(d).resyncs;
      var e := d.(crcResyncs := d.crcResyncs + (resyncs - d.lastResyncs));
      if d.reader.FailedTallying? then e.(reader := FailedTallied)
      else e.(lastResyncs := resyncs, reader := Tallied(d.reader.frame))
    case TallyDone =>
      d.(mu := None,
         reader := if d.reader.FailedTallied? then Joining
                   else if d.samEnabled then Folding(d.reader.frame, Away)
                   else Listening)
    case StopTicker => d.(stopped := true)
    case TickerExit => d.(ticker := None)
    case Join => d.(reader := Closed)
  }

  /** `who` is about to enter the block. */
  predicate AtDoor(d: Daemon, who: Thread) {
    match who
    case Ticker => d.ticker == Some(Away)
    case ReadLoop => d.reader.Folding? && d.reader.at.Away?
    case Observer => false
  }

  predicate BlockEnabled(d: Daemon, who: Thread, a: BlockStep) {
    var at := At(d, who);
    match a
    case Enter => d.schedMu.None? && AtDoor(d, who)
    case Note(_) => who.ReadLoop? && at.Entered? && d.scheds != []
    case Tick(_, _) => at == BeforeTick(who) && d.scheds != []
    case Count => at.Ticked? && d.scheds != []
    case Measure => at.Counted?
    case Mark => at.Measured?
    case Own => at.Marked? && d.mu.None?
    case Load => at.Owning?
    case Store => at.Loaded?
    case Release => at.Stored?
    case Leave => at.Released?
  }

  function DoBlock(d: Daemon, who: Thread, a: BlockStep): Daemon
    requires BlockEnabled(d, who, a)
  {
    var at := At(d, who);
    match a
    case Enter => Move(d, who, Entered).(schedMu := Some(who))
    case Note(now) => WithCurrent(Move(d, who, Noted), Schedulers.NoteStep(Current(d), d.reader.frame, now))
    case Tick(now, written) => WithCurrent(Move(d, who, Ticked), Schedulers.TickStep(Current(d), now, written))
    case Count => Move(d, who, Counted(Current(d).failures))
    case Measure => Move(d, who, Measured(at.fails, at.fails - d.lastSchedFailures))
    case Mark => Move(d, who, Marked(at.delta)).(lastSchedFailures := at.fails)
    case Own => Move(d, who, Owning(at.delta)).(mu := Some(who))
    case Load => Move(d, who, Loaded(d.samFailures, at.delta))
    case Store => Move(d, who, Stored).(samFailures := at.total + at.delta)
    case Release => Move(d, who, Released).(mu := None)
    case Leave => Depart(d, who).(schedMu := None)
  }

  ghost predicate Enabled(d: Daemon, a: Action) {
    match a
    case Loop(step) => LoopEnabled(d, step)
    case Block(who, move) => BlockEnabled(d, who, move)
    case Look => d.mu.None?
    case LookAway => d.mu == Some(Observer)
  }

  ghost function Do(d: Daemon, a: Action): Daemon
    requires Enabled(d, a)
  {
    match a
    case Loop(step) => DoLoop(d, step)
    case Block(who, move) => DoBlock(d, who, move)
    case Look => d.(mu := Some(Observer))
    case LookAway => d.(mu := None)
  }

  /** A finite run of the daemon: its state after each step. */
  ghost predicate Behaviour(states: seq<Daemon>, actions: seq<Action>) {
    && |states| == |actions| + 1
    && (exists sam :: states[0] == Boot(sam))
    && forall i :: 0 <= i < |actions| ==> Enabled(states[i], actions[i]) && states[i + 1] == Do(states[i], actions[i])
  }

  // ----- The invariant -----

  predicate OwnsMu(at: Fold) {
    at.Owning? || at.Loaded? || at.Stored?
  }

  predicate TallyOwnsMu(p: Place) {
    p.Tallying? || p.Tallied? || p.FailedTallying? || p.FailedTallied?
  }

  /** A goroutine is in the block exactly when it holds the scheduler's lock, and so for `mu`. */
  ghost predicate LocksHeld(d: Daemon) {
    && (d.schedMu == Some(Ticker) <==> !At(d, Ticker).Away?)
    && (d.schedMu == Some(ReadLoop) <==> !At(d, ReadLoop).Away?)
    && d.schedMu != Some(Observer)
    && (d.mu == Some(Ticker) <==> OwnsMu(At(d, Ticker)))
    && (d.mu == Some(ReadLoop) <==> OwnsMu(At(d, ReadLoop)) || TallyOwnsMu(d.reader))
    && !At(d, Ticker).Noted?
  }

  /** The port is open from `Open` to `Join`, and no goroutine of a connection outlives it. */
  ghost predicate Lifetimes(d: Daemon) {
    && (d.reader.Closed? ==> d.ticker.None?)
    && (d.ticker.Some? ==> d.scheds != [])
    && (d.reader.Folding? ==> d.scheds != [] && d.samEnabled)
    && (d.reader != Closed && d.reader != Opened ==> d.taps != [])
    && (!d.samEnabled ==> d.scheds == [] && d.ticker.None?)
    && (d.samEnabled && !d.reader.Closed? ==> d.scheds != [])
    && (d.stopped ==> d.reader.Joining? || d.reader.Closed?)
    && (d.samEnabled && !d.reader.Closed? && !d.stopped ==> d.ticker.Some?)
  }

  /**
   What a goroutine at `at` in the block still owes to `total`, when the scheduler has counted
   `count` failures of which `marked` were seen by earlier folds.
   */
  ghost predicate Owes(at: Fold, count: int, marked: int, total: int, owed: int) {
    match at
    case Away => owed == 0 && count == marked
    case Entered => owed == count - marked
    case Noted => owed == count - marked
    case Ticked => owed == count - marked
    case Counted(fails) => owed == count - marked && fails == count
    case Measured(fails, delta) => owed == delta == count - marked && fails == count
    case Marked(delta) => owed == delta && count == marked
    case Owning(delta) => owed == delta && count == marked
    case Loaded(loaded, delta) => owed == delta && count == marked && loaded == total
    case Stored => owed == 0 && count == marked
    case Released => owed == 0 && count == marked
  }

  /** The failures not yet in the total are those the holder of the lock owes. */
  ghost predicate FailuresBalance(d: Daemon) {
    var owed := Failures(d.scheds) - d.samFailures;
    && owed >= 0
    && (d.schedMu.None? ==> owed == 0)
    && (d.schedMu.None? && d.scheds != [] && !d.reader.Closed? ==> Current(d).failures == d.lastSchedFailures)
    && (d.schedMu.Some? && d.scheds != [] ==>
          Owes(At(d, d.schedMu.value), Current(d).failures, d.lastSchedFailures, d.samFailures, owed))
  }

  /** The read loop has folded in all but what the decoder has skipped since. */
  ghost predicate ResyncsBalance(d: Daemon) {
    var owed := Resyncs(d.taps) - d.crcResyncs;
    && owed >= 0
    && (d.reader.Closed? || d.reader.Opened? || d.reader.FailedTallied? || d.reader.Joining? ==> owed == 0)
    && (d.reader.Tallied? || d.reader.Folding? ==> owed == 0)
    && (d.taps != [] && !d.reader.Closed? && !d.reader.Opened? && !d.reader.FailedTallied? && !d.reader.Joining? ==>
          owed == CurrentTap(d).resyncs - d.lastResyncs)
  }

  ghost predicate Inv(d: Daemon) {
    LocksHeld(d) && Lifetimes(d) && FailuresBalance(d) && ResyncsBalance(d)
  }

  // ----- Sums -----

  lemma FailuresOfLast(scheds: seq<Sched>, s: Sched)
    requires scheds != []
    ensures var n := |scheds| - 1;
            Failures(scheds[n := s]) == Failures(scheds) - scheds[n].failures + s.failures
  {
    var n := |scheds| - 1;
    assert scheds[n := s][..n] == scheds[..n];
  }

  lemma FailuresOfMore(scheds: seq<Sched>, s: Sched)
    ensures Failures(scheds + [s]) == Failures(scheds) + s.failures
  {
    assert (scheds + [s])[..|scheds|] == scheds;
  }

  lemma ResyncsOfLast(taps: seq<Tap>, tap: Tap)
    requires taps != []
    ensures var n := |taps| - 1;
            Resyncs(taps[n := tap]) == Resyncs(taps) - taps[n].resyncs + tap.resyncs
  {
    var n := |taps| - 1;
    assert taps[n := tap][..n] == taps[..n];
  }

  lemma ResyncsOfMore(taps: seq<Tap>, tap: Tap)
    ensures Resyncs(taps + [tap]) == Resyncs(taps) + tap.resyncs
  {
    assert (taps + [tap])[..|taps|] == taps;
  }

  // ----- Every step keeps the invariant -----

  lemma LoopLocks(d: Daemon, a: LoopStep)
    requires LocksHeld(d) && Lifetimes(d) && LoopEnabled(d, a)
    ensures LocksHeld(DoLoop(d, a)) && Lifetimes(DoLoop(d, a))
  {
  }

  lemma BlockLocks(d: Daemon, who: Thread, a: BlockStep)
    requires LocksHeld(d) && Lifetimes(d) && BlockEnabled(d, who, a)
    ensures LocksHeld(DoBlock(d, who, a)) && Lifetimes(DoBlock(d, who, a))
    ensures d.schedMu == (if a.Enter? then None else Some(who))
  {
  }

  /** The scheduler's counter never falls. */
  lemma NoteCounts(s: Sched, f: Frame, now: int)
    ensures Schedulers.NoteStep(s, f, now).failures >= s.failures
  {
  }

  lemma TickCounts(s: Sched, now: int, written: bool)
    ensures Schedulers.TickStep(s, now, written).failures >= s.failures
  {
  }

  lemma LoopFailures(d: Daemon, a: LoopStep)
    requires Inv(d) && LoopEnabled(d, a)
    ensures FailuresBalance(DoLoop(d, a)) && DoLoop(d, a).samFailures >= d.samFailures
  {
    if a.Open? {
      FailuresOfMore(d.scheds, Schedulers.Initial(a.configs));
    }
  }

  /** The holder of the lock calls the scheduler, which counts up to `s`. */
  lemma CallFailures(d: Daemon, who: Thread, at: Fold, s: Sched)
    requires Inv(d) && d.schedMu == Some(who) && d.scheds != []
    requires (At(d, who).Entered? || At(d, who).Noted?) && (at.Noted? || at.Ticked?)
    requires s.failures >= Current(d).failures
    ensures FailuresBalance(WithCurrent(Move(d, who, at), s))
  {
    FailuresOfLast(d.scheds, s);
  }

  /** The steps of the block that work out and add the delta. */
  lemma MoveFailures(d: Daemon, who: Thread, a: BlockStep)
    requires Inv(d) && BlockEnabled(d, who, a) && !a.Note? && !a.Tick? && !who.Observer?
    requires d.schedMu == (if a.Enter? then None else Some(who))
    ensures FailuresBalance(DoBlock(d, who, a)) && DoBlock(d, who, a).samFailures >= d.samFailures
  {
  }

  lemma NoteFailures(d: Daemon, who: Thread, now: int)
    requires Inv(d) && BlockEnabled(d, who, Note(now)) && d.schedMu == Some(who)
    ensures FailuresBalance(DoBlock(d, who, Note(now))) && DoBlock(d, who, Note(now)).samFailures == d.samFailures
  {
    NoteCounts(Current(d), d.reader.frame, now);
    CallFailures(d, who, Noted, Schedulers.NoteStep(Current(d), d.reader.frame, now));
  }

  lemma TickFailures(d: Daemon, who: Thread, now: int, written: bool)
    requires Inv(d) && BlockEnabled(d, who, Tick(now, written)) && d.schedMu == Some(who)
    ensures FailuresBalance(DoBlock(d, who, Tick(now, written)))
    ensures DoBlock(d, who, Tick(now, written)).samFailures == d.samFailures
  {
    TickCounts(Current(d), now, written);
    CallFailures(d, who, Ticked, Schedulers.TickStep(Current(d), now, written));
  }

  lemma BlockFailures(d: Daemon, who: Thread, a: BlockStep)
    requires Inv(d) && BlockEnabled(d, who, a)
    ensures FailuresBalance(DoBlock(d, who, a)) && DoBlock(d, who, a).samFailures >= d.samFailures
  {
    BlockLocks(d, who, a);
    match a
    case Note(now) => NoteFailures(d, who, now);
    case Tick(now, written) => TickFailures(d, who, now, written);
    case _ => MoveFailures(d, who, a);
  }

  lemma NextResyncs(d: Daemon, tap: Tap, reader: Place)
    requires Inv(d) && d.reader.Listening? && d.taps != [] && tap.resyncs >= CurrentTap(d).resyncs
    requires reader.Received? || reader.Failed?
    ensures ResyncsBalance(d.(taps := d.taps[|d.taps| - 1 := tap], reader := reader))
  {
    ResyncsOfLast(d.taps, tap);
  }

  lemma LoopResyncs(d: Daemon, a: LoopStep)
    requires Inv(d) && LoopEnabled(d, a)
    ensures ResyncsBalance(DoLoop(d, a)) && DoLoop(d, a).crcResyncs >= d.crcResyncs
  {
    match a
    case Listen(stream) =>
      ResyncsOfMore(d.taps, Tap(stream, stream, 0));
    case Next(outcome, skipped, left) =>
      NextResyncs(d, DoLoop(d, a).taps[|d.taps| - 1], DoLoop(d, a).reader);
    case _ =>
  }

  lemma BlockResyncs(d: Daemon, who: Thread, a: BlockStep)
    requires Inv(d) && BlockEnabled(d, who, a)
    ensures ResyncsBalance(DoBlock(d, who, a)) && DoBlock(d, who, a).crcResyncs == d.crcResyncs
  {
  }

  /** Every step keeps the invariant and lowers neither total. */
  lemma InvStep(d: Daemon, a: Action)
    requires Inv(d) && Enabled(d, a)
    ensures Inv(Do(d, a))
    ensures Do(d, a).samFailures >= d.samFailures && Do(d, a).crcResyncs >= d.crcResyncs
  {
    match a
    case Loop(step) =>
      LoopLocks(d, step);
      LoopFailures(d, step);
      LoopResyncs(d, step);
    case Block(who, move) =>
      BlockLocks(d, who, move);
      BlockFailures(d, who, move);
      BlockResyncs(d, who, move);
    case _ =>
  }

  lemma {:induction false} Invariant(states: seq<Daemon>, actions: seq<Action>, i: nat)
    requires Behaviour(states, actions) && i < |states|
    ensures Inv(states[i])
  {
    if i > 0 {
      Invariant(states, actions, i - 1);
      InvStep(states[i - 1], actions[i - 1]);
    }
  }

  // ----- Main results -----

  /**
   Whatever the interleaving and however many reconnects: while no goroutine holds the
   scheduler's lock, the published total is the sum of `Failures()` over every scheduler ever
   created, and at any other moment it is at most that.
   */
  lemma FailuresExact(states: seq<Daemon>, actions: seq<Action>, i: nat)
    requires Behaviour(states, actions) && i < |states|
    ensures states[i].samFailures <= Failures(states[i].scheds)
    ensures states[i].schedMu.None? ==> states[i].samFailures == Failures(states[i].scheds)
  {
    Invariant(states, actions, i);
  }

  // ----- Decoders and their streams -----

  /** Every decoder has counted what the scan of its stream moves over, as far as it has come. */
  ghost predicate TapsTrue(taps: seq<Tap>) {
    forall k :: 0 <= k < |taps| ==> taps[k].resyncs + Slides(taps[k].left) == Slides(taps[k].stream)
  }

  lemma NextTrue(taps: seq<Tap>, outcome: Outcome, skipped: nat, left: seq<Byte>)
    requires taps != [] && TapsTrue(taps) && Returns(taps[|taps| - 1].left, skipped, outcome, left)
    ensures var n := |taps| - 1;
            TapsTrue(taps[n := Tap(taps[n].stream, left, taps[n].resyncs + skipped)])
  {
    ReturnsSlides(taps[|taps| - 1].left, skipped, outcome, left);
  }

  lemma BlockKeepsTaps(d: Daemon, who: Thread, a: BlockStep)
    requires BlockEnabled(d, who, a)
    ensures DoBlock(d, who, a).taps == d.taps
  {
  }

  lemma LoopTaps(d: Daemon, a: LoopStep)
    requires TapsTrue(d.taps) && LoopEnabled(d, a)
    ensures TapsTrue(DoLoop(d, a).taps)
  {
    if a.Next? {
      NextTrue(d.taps, a.outcome, a.skipped, a.left);
    } else if !a.Listen? {
      assert DoLoop(d, a).taps == d.taps;
    }
  }

  lemma TapsStep(d: Daemon, a: Action)
    requires TapsTrue(d.taps) && Enabled(d, a)
    ensures TapsTrue(Do(d, a).taps)
  {
    match a
    case Loop(step) => LoopTaps(d, step);
    case Block(who, move) => BlockKeepsTaps(d, who, move);
    case _ =>
  }

  lemma {:induction false} TapsCountSlides(states: seq<Daemon>, actions: seq<Action>, i: nat)
    requires Behaviour(states, actions) && i < |states|
    ensures TapsTrue(states[i].taps)
  {
    if i > 0 {
      TapsCountSlides(states, actions, i - 1);
      TapsStep(states[i - 1], actions[i - 1]);
    }
  }

  lemma {:induction false} SumOfSlides(taps: seq<Tap>)
    requires TapsTrue(taps)
    ensures Resyncs(taps) == AllSlides(taps)
  {
    if taps != [] {
      SumOfSlides(taps[..|taps| - 1]);
    }
  }

  /**
   Once the read loop has folded, the resync total is that of every decoder ever created, which
   is what the scans of their streams move over.
   */
  lemma ResyncsExact(states: seq<Daemon>, actions: seq<Action>, i: nat)
    requires Behaviour(states, actions) && i < |states|
    ensures states[i].crcResyncs <= Resyncs(states[i].taps) == AllSlides(states[i].taps)
    ensures 0 < i && actions[i - 1] == Loop(TallyAdd) ==> states[i].crcResyncs == Resyncs(states[i].taps)
    ensures states[i].reader.Folding? || states[i].reader.Joining? || states[i].reader.Closed? ==>
      states[i].crcResyncs == Resyncs(states[i].taps)
  {
    Invariant(states, actions, i);
    TapsCountSlides(states, actions, i);
    SumOfSlides(states[i].taps);
    if i > 0 {
      Invariant(states, actions, i - 1);
      assert states[i] == Do(states[i - 1], actions[i - 1]);
    }
  }

  /** Neither total ever falls. */
  lemma {:induction false} TotalsNeverFall(states: seq<Daemon>, actions: seq<Action>, i: nat, j: nat)
    requires Behaviour(states, actions) && i <= j < |states|
    ensures states[i].samFailures <= states[j].samFailures
    ensures states[i].crcResyncs <= states[j].crcResyncs
    decreases j - i
  {
    if i < j {
      TotalsNeverFall(states, actions, i, j - 1);
      Invariant(states, actions, j - 1);
      InvStep(states[j - 1], actions[j - 1]);
    }
  }

  /** A call into the scheduler. */
  predicate CallsScheduler(a: Action) {
    a.Block? && (a.move.Note? || a.move.Tick? || a.move.Count?)
  }

  /** The scheduler is only called with its lock held, and never once its port is closed. */
  lemma SchedulerGuarded(states: seq<Daemon>, actions: seq<Action>, i: nat)
    requires Behaviour(states, actions) && i < |actions| && CallsScheduler(actions[i])
    ensures states[i].schedMu == Some(actions[i].who) && !states[i].reader.Closed?
  {
    Invariant(states, actions, i);
    BlockLocks(states[i], actions[i].who, actions[i].move);
  }

  // ----- No deadlock -----

  /** How many steps a goroutine in the block is from leaving it. */
  function StepsLeft(at: Fold): nat {
    match at
    case Away => 0
    case Entered => 10
    case Noted => 9
    case Ticked => 8
    case Counted(_) => 7
    case Measured(_, _) => 6
    case Marked(_) => 5
    case Owning(_) => 4
    case Loaded(_, _) => 3
    case Stored => 2
    case Released => 1
  }

  /** How many steps of the holders are left until both locks are free. */
  function Held(d: Daemon): nat {
    (if d.mu == Some(Observer) then 1 else 0) +
    (if d.reader.Tallying? || d.reader.FailedTallying? then 2
     else if d.reader.Tallied? || d.reader.FailedTallied? then 1 else 0) +
    StepsLeft(At(d, Ticker)) + StepsLeft(At(d, ReadLoop))
  }

  /** The next step of a goroutine in the block. */
  function NextInBlock(d: Daemon, who: Thread, now: int): BlockStep {
    match At(d, who)
    case Away => Enter
    case Entered => if who.ReadLoop? then Note(now) else Tick(now, true)
    case Noted => Tick(now, true)
    case Ticked => Count
    case Counted(_) => Measure
    case Measured(_, _) => Mark
    case Marked(_) => Own
    case Owning(_) => Load
    case Loaded(_, _) => Store
    case Stored => Release
    case Released => Leave
  }

  /** A step that the holder of a lock can take: holders of `mu` first. */
  function HolderStep(d: Daemon, now: int): Action {
    if d.mu == Some(Observer) then LookAway
    else if d.reader.Tallying? || d.reader.FailedTallying? then Loop(TallyAdd)
    else if d.reader.Tallied? || d.reader.FailedTallied? then Loop(TallyDone)
    else if d.schedMu.Some? then Block(d.schedMu.value, NextInBlock(d, d.schedMu.value, now))
    else Look
  }

  lemma BlockProgress(d: Daemon, who: Thread, now: int)
    requires Inv(d) && d.schedMu == Some(who) && (d.mu.None? || d.mu == Some(who)) && !TallyOwnsMu(d.reader)
    ensures var a := NextInBlock(d, who, now);
            BlockEnabled(d, who, a) && Held(DoBlock(d, who, a)) < Held(d)
  {
  }

  /**
   The nested locks cannot deadlock: while one is held some holder can step, and every such
   step brings the moment closer when both are free.
   */
  lemma HolderProgress(d: Daemon, now: int)
    requires Inv(d)
    ensures d.schedMu.Some? || d.mu.Some? <==> Held(d) > 0
    ensures Held(d) > 0 ==> Enabled(d, HolderStep(d, now)) && Held(Do(d, HolderStep(d, now))) < Held(d)
  {
    if d.mu != Some(Observer) && !TallyOwnsMu(d.reader) {
      assert d.mu.Some? ==> d.mu.value.Ticker? || d.mu.value.ReadLoop?;
    }
    if d.mu != Some(Observer) && !TallyOwnsMu(d.reader) && d.schedMu.Some? {
      BlockProgress(d, d.schedMu.value, now);
    }
  }

  /** From every reachable state the locks come free within a bounded number of steps of their holders. */
  lemma {:induction false} LocksComeFree(d: Daemon, now: int) returns (states: seq<Daemon>, actions: seq<Action>)
    requires Inv(d)
    ensures |states| == |actions| + 1 && |actions| <= Held(d) && states[0] == d
    ensures forall i :: 0 <= i < |actions| ==>
      Enabled(states[i], actions[i]) && states[i + 1] == Do(states[i], actions[i])
    ensures states[|actions|].schedMu.None? && states[|actions|].mu.None?
    decreases Held(d)
  {
    HolderProgress(d, now);
    if Held(d) == 0 {
      return [d], [];
    }
    var a := HolderStep(d, now);
    InvStep(d, a);
    var rest, more := LocksComeFree(Do(d, a), now);
    states, actions := [d] + rest, [a] + more;
  }
}
