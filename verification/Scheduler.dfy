/** The SAM read scheduler of sam/scheduler.go: one request at a time, paced, with backoff. */
module Schedulers {
  import opened Basics
  import opened Frames

  const SEND_GAP := 2 * SECOND
  const PENDING_TIMEOUT := 2 * SECOND
  const MAX_BACKOFF := 600 * SECOND
  const MIN_INTERVAL := 5 * SECOND

  /** A three-byte register number. */
  type Register = r: seq<Byte> | |r| == 3 witness [0, 0, 0]

  /** A polled register: what the caller configures, and when it is next due. */
  datatype Target = Target(reg: Register, interval: int, due: Instant, backoff: int)

  datatype State = State(
    targets: seq<Target>, pending: Option<nat>, sentAt: int, lastSend: Instant, failures: nat)
  {
    ghost predicate Valid() {
      && (pending.Some? ==> pending.value < |targets| && lastSend == At(sentAt))
      && forall i :: 0 <= i < |targets| ==> targets[i].interval >= MIN_INTERVAL && targets[i].backoff >= 0
    }
  }

  // ----- Specification of the two operations -----

  function NextBackoff(cur: int): int {
    if cur == 0 then 4 * SECOND else if cur * 2 > MAX_BACKOFF then MAX_BACKOFF else cur * 2
  }

  function ReadFrame(reg: Register): Frame {
    Frame(WALL_CONTROL, SAM, OP_READ, reg, [])
  }

  predicate IsDue(t: Target, now: int) {
    !At(now).Before(t.due)
  }

  /** Among the first `n` targets, the one `Tick`'s loop would have picked. */
  function Pick(targets: seq<Target>, now: int, n: nat): (p: Option<nat>)
    requires n <= |targets|
    ensures p.None? ==> forall j :: 0 <= j < n ==> !IsDue(targets[j], now)
    ensures p.Some? ==> p.value < n && IsDue(targets[p.value], now)
    // most overdue, first among equals
    ensures p.Some? ==> forall j :: 0 <= j < n && IsDue(targets[j], now) ==>
      !targets[j].due.Before(targets[p.value].due) && (j < p.value ==> targets[p.value].due.Before(targets[j].due))
  {
    if n == 0 then None
    else
      var p, t := Pick(targets, now, n - 1), targets[n - 1];
      if !IsDue(t, now) then p
      else if p.None? || t.due.Before(targets[p.value].due) then Some(n - 1)
      else p
  }

  /** The pending request has failed: back its target off. */
  function Fail(s: State, now: int): State
    requires s.pending.Some? && s.pending.value < |s.targets|
  {
    var t := s.targets[s.pending.value];
    var backoff := NextBackoff(t.backoff);
    s.(targets := s.targets[s.pending.value := t.(backoff := backoff, due := At(now + backoff))],
       pending := None, failures := s.failures + 1)
  }

  predicate Waiting(s: State, now: int) {
    s.pending.Some? && now - s.sentAt < PENDING_TIMEOUT
  }

  /** The state after a pending request has been given its chance to time out. */
  function Expire(s: State, now: int): State
    requires s.Valid()
  {
    if s.pending.Some? && !Waiting(s, now) then Fail(s, now) else s
  }

  predicate GapOpen(s: State, now: int) {
    s.lastSend.Zero? || now - s.lastSend.t >= SEND_GAP
  }

  /** Which target a `Tick` at `now` sends a request for, if any. */
  function Attempt(s: State, now: int): (a: Option<nat>)
    requires s.Valid()
    ensures a.Some? ==> a.value < |s.targets|
  {
    if Waiting(s, now) || !GapOpen(s, now) then None
    else Pick(Expire(s, now).targets, now, |s.targets|)
  }

  /** A request for target `i` goes out at `now`, or the port refuses it. */
  function SendStep(s: State, i: nat, now: int, written: bool): State
    requires i < |s.targets|
  {
    if written then s.(pending := Some(i), sentAt := now, lastSend := At(now))
    else s.(targets := s.targets[i := s.targets[i].(due := At(now + SEND_GAP))],
            lastSend := At(now), failures := s.failures + 1)
  }

  function TickStep(s: State, now: int, written: bool): State
    requires s.Valid()
  {
    var a := Attempt(s, now);
    if a.None? then Expire(s, now) else SendStep(Expire(s, now), a.value, now, written)
  }

  /** A wall-control reply to the SAM. */
  predicate IsReply(f: Frame) {
    f.src == WALL_CONTROL && f.dst == SAM
  }

  predicate IsNack(s: State, f: Frame) {
    s.pending.Some? && IsReply(f) && f.op == OP_NACK
  }

  predicate IsAck(s: State, f: Frame)
    requires s.Valid()
  {
    && s.pending.Some? && IsReply(f) && f.op == OP_ACK
    && |f.data| >= 3 && f.data[..3] == s.targets[s.pending.value].reg
  }

  function NoteStep(s: State, f: Frame, now: int): State
    requires s.Valid()
  {
    if IsNack(s, f) then Fail(s, now)
    else if IsAck(s, f) then
      var t := s.targets[s.pending.value];
      s.(targets := s.targets[s.pending.value := t.(backoff := 0, due := At(now + t.interval))], pending := None)
    else s
  }

  // ----- Implementation -----

  /** The serial port, as an all-or-nothing writer that may refuse. */
  class Port {
    var wire: seq<Byte>

    constructor ()
      ensures wire == []
    {
      wire := [];
    }

    method Write(bytes: seq<Byte>) returns (ok: bool)
      modifies this
      ensures wire == if ok then old(wire) + bytes else old(wire)
    {
      ok := *;
      if ok {
        wire := wire + bytes;
      }
    }
  }

  /** A target as the caller configures it. */
  datatype Config = Config(reg: Register, interval: int)

  function Floored(c: Config): Target {
    Target(c.reg, if c.interval < MIN_INTERVAL then MIN_INTERVAL else c.interval, Zero, 0)
  }

  function Initial(configs: seq<Config>): (s: State)
    ensures s.Valid()
  {
    State(seq(|configs|, i requires 0 <= i < |configs| => Floored(configs[i])), None, 0, Zero, 0)
  }

  class Scheduler {
    const port: Port
    var targets: seq<Target>
    var pending: Option<nat>
    var sentAt: int
    var lastSend: Instant
    var failures: nat

    function Abstract(): State
      reads this
    {
      State(targets, pending, sentAt, lastSend, failures)
    }

    /** `New`. */
    constructor (port: Port, configs: seq<Config>)
      ensures this.port == port && Abstract() == Initial(configs)
    {
      this.port := port;
      targets, pending, sentAt, lastSend, failures := [], None, 0, Zero, 0;
      new;
      for i := 0 to |configs|
        invariant targets == Initial(configs).targets[..i]
        invariant this.port == port && pending == None && sentAt == 0 && lastSend == Zero && failures == 0
      {
        var t := Target(configs[i].reg, configs[i].interval, Zero, 0);
        if t.interval < MIN_INTERVAL {
          t := t.(interval := MIN_INTERVAL);
        }
        targets := targets + [t];
      }
    }

    /** The failure bookkeeping shared by the timeout and the NACK paths. */
    method FailPending(now: int)
      requires Abstract().Valid() && pending.Some?
      modifies this
      ensures Abstract() == old(Fail(Abstract(), now)) && Abstract().Valid()
    {
      failures := failures + 1;
      var p := targets[pending.value];
      p := p.(backoff := NextBackoff(p.backoff));
      p := p.(due := At(now + p.backoff));
      targets := targets[pending.value := p];
      pending := None;
    }

    /** The selection loop of `Tick`. */
    method MostOverdue(now: int) returns (pick: Option<nat>)
      ensures pick == Pick(targets, now, |targets|)
    {
      pick := None;
      for i := 0 to |targets|
        invariant pick == Pick(targets, now, i)
      {
        if At(now).Before(targets[i].due) {
          continue;
        }
        if pick.None? || targets[i].due.Before(targets[pick.value].due) {
          pick := Some(i);
        }
      }
    }

    /** The transmission half of `Tick`. */
    method Send(pick: nat, now: int) returns (ok: bool)
      requires Abstract().Valid() && pending.None? && pick < |targets|
      modifies this, port
      ensures Abstract() == old(SendStep(Abstract(), pick, now, ok)) && Abstract().Valid()
      ensures port.wire == old(port.wire) + (if ok then Wire(ReadFrame(old(targets[pick].reg))) else [])
    {
      var bytes := Encode(Frame(WALL_CONTROL, SAM, OP_READ, targets[pick].reg, []));
      ok := port.Write(bytes);
      if !ok {
        failures := failures + 1;
        targets := targets[pick := targets[pick].(due := At(now + SEND_GAP))];
        lastSend := At(now);
        return;
      }
      pending := Some(pick);
      sentAt := now;
      lastSend := At(now);
    }

    /** `Tick`; `written` reports whether the port took the request, had there been one. */
    method Tick(now: int) returns (ghost written: bool)
      requires Abstract().Valid()
      modifies this, port
      ensures Abstract() == old(TickStep(Abstract(), now, written)) && Abstract().Valid()
      ensures port.wire == old(port.wire) +
        (if written && old(Attempt(Abstract(), now)).Some?
         then Wire(ReadFrame(old(targets[Attempt(Abstract(), now).value].reg))) else [])
    {
      written := false;
      if pending.Some? {
        if now - sentAt < PENDING_TIMEOUT {
          return;
        }
        FailPending(now);
      }
      if lastSend.At? && now - lastSend.t < SEND_GAP {
        return;
      }
      var pick := MostOverdue(now);
      if pick.None? {
        return;
      }
      written := Send(pick.value, now);
    }

    /** `NoteFrame`. */
    method NoteFrame(f: Frame, now: int)
      requires Abstract().Valid()
      modifies this
      ensures Abstract() == old(NoteStep(Abstract(), f, now)) && Abstract().Valid()
    {
      if pending.None? {
        return;
      }
      if f.src != WALL_CONTROL || f.dst != SAM {
        return;
      }
      if f.op == OP_NACK {
        FailPending(now);
        return;
      }
      if f.op != OP_ACK || |f.data| < 3 {
        return;
      }
      var r := targets[pending.value].reg;
      if f.data[0] != r[0] || f.data[1] != r[1] || f.data[2] != r[2] {
        return;
      }
      assert f.data[..3] == r;
      var p := targets[pending.value].(backoff := 0);
      p := p.(due := At(now + p.interval));
      targets := targets[pending.value := p];
      pending := None;
    }
  }
}
