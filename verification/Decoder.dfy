/**
 The resynchronising stream decoder of bus/decoder.go, proved equal to a one-pass
 scan of the whole byte string, however the reader cuts that string into reads.
 */
module Decoders {
  import opened Basics
  import Bytes
  import opened Frames

  // ----- The reader -----

  /** One return of `Read`: the bytes it delivered and whether it reported an error. */
  datatype Chunk = Chunk(bytes: seq<Byte>, failed: bool)

  const SCRATCH := 1024

  /** All the bytes a script of reads will deliver. */
  function Deliver(script: seq<Chunk>): seq<Byte> {
    if script == [] then [] else script[0].bytes + Deliver(script[1..])
  }

  /** How many reads since the last that delivered bytes were idle: empty, without an error. */
  function Idle(read: seq<Chunk>): nat {
    if read == [] || read[|read| - 1].bytes != [] then 0
    else Idle(read[..|read| - 1]) + if read[|read| - 1].failed then 0 else 1
  }

  /** Every read fits the scratch buffer. */
  ghost predicate Fits(script: seq<Chunk>) {
    forall i :: 0 <= i < |script| ==> |script[i].bytes| <= SCRATCH
  }

  /** An error, which may come together with data, is the end of the stream. */
  ghost predicate Ends(script: seq<Chunk>) {
    forall i :: 0 <= i < |script| && script[i].failed ==> i == |script| - 1 && script[i].bytes != []
  }

  const PATIENCE := 100

  /** There are never 100 idle reads without data between them. */
  predicate Progressing(read: seq<Chunk>) {
    Idle(read) < PATIENCE && (read == [] || Progressing(read[..|read| - 1]))
  }

  /** There are not until the last. */
  predicate ProgressingSoFar(read: seq<Chunk>) {
    read == [] || Progressing(read[..|read| - 1])
  }

  /** The script opens with 100 idle reads. */
  ghost predicate OpensIdle(script: seq<Chunk>) {
    |script| >= PATIENCE && forall i :: 0 <= i < PATIENCE ==> script[i] == Chunk([], false)
  }

  /** An `io.Reader` that plays a script and then fails on every later read. */
  class Reader {
    var script: seq<Chunk>

    constructor (script: seq<Chunk>)
      ensures this.script == script
    {
      this.script := script;
    }

    method Read() returns (bytes: seq<Byte>, failed: bool)
      modifies this
      ensures old(script) == [] ==> bytes == [] && failed && script == []
      ensures old(script) != [] ==> Chunk(bytes, failed) == old(script)[0] && script == old(script)[1..]
    {
      if script == [] {
        return [], true;
      }
      bytes, failed := script[0].bytes, script[0].failed;
      script := script[1..];
    }
  }

  // ----- Reference: one pass over the whole string -----

  /** A string of at least ten bytes whose header bytes 5-6 are zero. */
  predicate Gated(s: seq<Byte>) {
    |s| >= MIN_FRAME && s[5] == 0 && s[6] == 0
  }

  function CandidateLength(s: seq<Byte>): nat
    requires |s| >= MIN_FRAME
  {
    Bytes.ToInt(s[4]) + MIN_FRAME
  }

  /** A valid frame starts at the first byte of `s`. */
  ghost predicate FrameAt(s: seq<Byte>) {
    Gated(s) && CandidateLength(s) <= |s| && Accepts(s[..CandidateLength(s)])
  }

  /** What a scan finds: the frames, how many bytes it moves over, and the bytes it leaves. */
  datatype Scanned = Scanned(frames: seq<Frame>, slides: nat, rest: seq<Byte>) {

    /** The same after moving over `n` more bytes first. */
    function Skip(n: nat): Scanned {
      this.(slides := slides + n)
    }

    /** The same after finding `f` first. */
    function Find(f: Frame): Scanned {
      this.(frames := [f] + frames)
    }
  }

  /** The scan: take a frame where one starts, otherwise move on by a byte. */
  ghost function ScanAll(s: seq<Byte>): (r: Scanned)
    ensures |r.rest| < MIN_FRAME
  {
    if |s| < MIN_FRAME then Scanned([], 0, s)
    else if FrameAt(s) then ScanAll(s[CandidateLength(s)..]).Find(Parse(s[..CandidateLength(s)]))
    else ScanAll(s[1..]).Skip(1)
  }

  /** The frames of `s`. */
  ghost function Scan(s: seq<Byte>): seq<Frame> { ScanAll(s).frames }

  /** How many bytes the scan moves over. */
  ghost function Slides(s: seq<Byte>): nat { ScanAll(s).slides }

  /** The bytes the scan leaves behind, too few to hold a frame. */
  ghost function Rest(s: seq<Byte>): seq<Byte> { ScanAll(s).rest }

  /** Scanning `s` is moving over `n` bytes and then scanning `t`. */
  ghost predicate MovesTo(s: seq<Byte>, n: nat, t: seq<Byte>) {
    |s| == n + |t| && ScanAll(s) == ScanAll(t).Skip(n)
  }

  /** Scanning `s` is moving over `n` bytes, finding `f` in its wire form, and then scanning `t`. */
  ghost predicate Yields(s: seq<Byte>, n: nat, f: Frame, t: seq<Byte>) {
    && |s| == n + |f.raw| + |t| && |f.data| <= MAX_DATA && Wire(f) == f.raw
    && ScanAll(s) == ScanAll(t).Find(f).Skip(n)
  }

  lemma MovesMore(s: seq<Byte>, n: nat, t: seq<Byte>, m: nat, u: seq<Byte>)
    requires MovesTo(s, n, t) && MovesTo(t, m, u)
    ensures MovesTo(s, n + m, u)
  {
  }

  lemma MovesThenYields(s: seq<Byte>, n: nat, t: seq<Byte>, m: nat, f: Frame, u: seq<Byte>)
    requires MovesTo(s, n, t) && Yields(t, m, f, u)
    ensures Yields(s, n + m, f, u)
  {
  }

  /** What follows a complete candidate has no say in whether it is a frame. */
  lemma FrameAtPrefix(p: seq<Byte>, rest: seq<Byte>)
    requires |p| >= MIN_FRAME
    ensures Gated(p + rest) == Gated(p) && CandidateLength(p + rest) == CandidateLength(p)
    ensures CandidateLength(p) <= |p| ==> FrameAt(p + rest) == FrameAt(p)
  {
    if CandidateLength(p) <= |p| {
      assert (p + rest)[..CandidateLength(p)] == p[..CandidateLength(p)];
    }
  }

  lemma SlideMoves(p: seq<Byte>, rest: seq<Byte>)
    requires |p| >= MIN_FRAME && !FrameAt(p + rest)
    ensures MovesTo(p + rest, 1, p[1..] + rest)
  {
    assert (p + rest)[1..] == p[1..] + rest;
  }

  lemma FrameMoves(p: seq<Byte>, rest: seq<Byte>)
    requires FrameAt(p)
    ensures Yields(p + rest, 0, Parse(p[..CandidateLength(p)]), p[CandidateLength(p)..] + rest)
  {
    var l := CandidateLength(p);
    FrameAtPrefix(p, rest);
    assert (p + rest)[..l] == p[..l] && (p + rest)[l..] == p[l..] + rest;
    EncodeDecode(p[..l]);
  }

  lemma EndsTail(script: seq<Chunk>)
    requires Ends(script) && script != []
    ensures Ends(script[1..])
    ensures script[0].bytes == [] ==> !script[0].failed
  {
  }

  lemma IdleMore(read: seq<Chunk>, c: Chunk)
    ensures Idle(read + [c]) == if c.bytes != [] then 0 else Idle(read) + if c.failed then 0 else 1
  {
    assert (read + [c])[..|read|] == read;
  }

  /** Reads that came before can only add to the idle ones. */
  lemma {:induction false} IdleSuffix(before: seq<Chunk>, read: seq<Chunk>)
    ensures Idle(read) <= Idle(before + read)
  {
    if read != [] {
      var n := |read| - 1;
      IdleSuffix(before, read[..n]);
      assert (before + read)[..|before| + n] == before + read[..n];
    }
  }

  lemma {:induction false} ProgressingRest(before: seq<Chunk>, script: seq<Chunk>)
    requires Progressing(before + script)
    ensures Progressing(script) && Idle(before) < PATIENCE
  {
    IdleSuffix(before, script);
    if script == [] {
      assert before + script == before;
    } else {
      var n := |script| - 1;
      assert (before + script)[..|before| + n] == before + script[..n];
      ProgressingRest(before, script[..n]);
    }
  }

  lemma ProgressingMore(read: seq<Chunk>, more: seq<Chunk>)
    requires |more| <= 1 && Progressing(read)
    ensures ProgressingSoFar(read + more)
    ensures Idle(read + more) < PATIENCE ==> Progressing(read + more)
  {
    if more == [] {
      assert read + more == read;
    } else {
      assert (read + more)[..|read|] == read;
    }
  }

  // ----- Implementation -----

  datatype Outcome = Delivered(frame: Frame) | StreamError | NoProgress

  /** Of the bytes `s`, a call has dropped `n` and delivered a frame's, and left `t`. */
  ghost predicate Keeps(s: seq<Byte>, n: nat, o: Outcome, t: seq<Byte>) {
    match o
    case Delivered(f) => |s| == n + |f.raw| + |t| && |f.data| <= MAX_DATA && Wire(f) == f.raw
    case _ => |s| == n + |t|
  }

  /** A call returns what the scan of `s` finds next: a frame, or the end. */
  ghost predicate Returns(s: seq<Byte>, n: nat, o: Outcome, t: seq<Byte>) {
    match o
    case Delivered(f) => Yields(s, n, f, t)
    case StreamError => MovesTo(s, n, t) && |t| < MIN_FRAME
    case NoProgress => MovesTo(s, n, t)
  }

  lemma ReturnsSlides(s: seq<Byte>, n: nat, o: Outcome, t: seq<Byte>)
    requires Returns(s, n, o, t)
    ensures Slides(s) == n + Slides(t)
  {
  }

  /** What a call may do: always keep every byte, and follow the scan if errors end the stream. */
  ghost predicate Result(s: seq<Byte>, n: nat, ends: bool, o: Outcome, t: seq<Byte>) {
    Keeps(s, n, o, t) && (ends ==> Returns(s, n, o, t))
  }

  /** The first `n` bytes of `s` are gone, moved over by the scan if errors end the stream. */
  ghost predicate Gone(s: seq<Byte>, n: nat, ends: bool, t: seq<Byte>) {
    |s| == n + |t| && (ends ==> MovesTo(s, n, t))
  }

  lemma GoneNothing(s: seq<Byte>, ends: bool)
    ensures Gone(s, 0, ends, s)
  {
  }

  lemma GoneMore(s: seq<Byte>, n: nat, ends: bool, t: seq<Byte>, m: nat, u: seq<Byte>)
    requires Gone(s, n, ends, t) && |t| == m + |u| && (ends ==> MovesTo(t, m, u))
    ensures Gone(s, n + m, ends, u)
  {
    if ends {
      MovesMore(s, n, t, m, u);
    }
  }

  lemma GoneThenYields(s: seq<Byte>, n: nat, ends: bool, t: seq<Byte>, m: nat, f: Frame, u: seq<Byte>)
    requires Gone(s, n, ends, t) && Yields(t, m, f, u)
    ensures Result(s, n + m, ends, Delivered(f), u)
  {
    if ends {
      MovesThenYields(s, n, t, m, f, u);
    }
  }

  lemma GoneThenError(s: seq<Byte>, n: nat, ends: bool, t: seq<Byte>, o: Outcome)
    requires Gone(s, n, ends, t) && !o.Delivered? && (ends && o.StreamError? ==> |t| < MIN_FRAME)
    ensures Result(s, n, ends, o, t)
  {
  }

  class Decoder {
    const reader: Reader
    var pending: seq<Byte>
    var resyncs: nat

    constructor (reader: Reader)
      ensures this.reader == reader && pending == [] && resyncs == 0
    {
      this.reader := reader;
      pending, resyncs := [], 0;
    }

    /** Everything not yet decoded: buffered bytes, then bytes still to be read. */
    ghost function Remaining(): seq<Byte>
      reads this, reader
    {
      pending + Deliver(reader.script)
    }

    ghost predicate Valid()
      reads this, reader
    {
      Fits(reader.script) && |pending| <= 264 + SCRATCH
    }

    /** Drop the first pending byte, the first `n` bytes of `whole` having gone before. */
    method Slide(ghost whole: seq<Byte>, ghost n: nat, ghost rest: seq<Byte>)
      requires |pending| >= MIN_FRAME
      modifies this
      ensures pending == old(pending)[1..] && resyncs == old(resyncs) + 1
      ensures !FrameAt(old(pending) + rest) && MovesTo(whole, n, old(pending) + rest) ==>
        MovesTo(whole, n + 1, pending + rest)
    {
      ghost var before := pending + rest;
      if !FrameAt(before) && MovesTo(whole, n, before) {
        SlideMoves(pending, rest);
        MovesMore(whole, n, before, 1, pending[1..] + rest);
      }
      pending := pending[1..];
      resyncs := resyncs + 1;
    }

    /** Take the complete candidate at the front of `pending`, if it is a frame. */
    method TakeFrame(ghost rest: seq<Byte>) returns (found: Option<Frame>)
      requires Gated(pending) && CandidateLength(pending) <= |pending|
      modifies this`pending
      ensures found.Some? ==>
        && |pending| < old(|pending|) && FrameAt(old(pending))
        && Yields(old(pending) + rest, 0, found.value, pending + rest)
      ensures found.None? ==> pending == old(pending) && !FrameAt(pending + rest)
    {
      FrameAtPrefix(pending, rest);
      var l := CandidateLength(pending);
      var ok, f := Decode(Frame(0, 0, 0, [], []), pending[..l]);
      if !ok {
        return None;
      }
      FrameMoves(pending, rest);
      pending := pending[l..];
      found := Some(f);
    }

    /**
     The inner loop of `Next`: work through `pending` until it yields a frame or needs
     more bytes. Nothing depends on `rest`, the bytes not yet read.
     */
    method DecodePending(ghost rest: seq<Byte>) returns (found: Option<Frame>)
      modifies this
      ensures |pending| <= old(|pending|) && resyncs >= old(resyncs)
      ensures found.None? ==>
        && MovesTo(old(pending) + rest, resyncs - old(resyncs), pending + rest)
        && (|pending| < MIN_FRAME || (Gated(pending) && |pending| < CandidateLength(pending)))
      ensures found.Some? ==> Yields(old(pending) + rest, resyncs - old(resyncs), found.value, pending + rest)
      ensures found.None? ==> !FrameAt(old(pending))
      ensures Scan(old(pending)) == [] ==> found.None? && Scan(pending) == []
    {
      ghost var whole := pending + rest;
      found := None;
      while |pending| >= 10
        invariant found.None? && resyncs >= old(resyncs) && |pending| <= old(|pending|)
        invariant MovesTo(whole, resyncs - old(resyncs), pending + rest)
        invariant FrameAt(old(pending)) ==> pending == old(pending)
        invariant Scan(old(pending)) == [] ==> Scan(pending) == []
        decreases |pending|
      {
        ghost var n, before := resyncs - old(resyncs), pending + rest;
        FrameAtPrefix(pending, rest);
        if pending[5] != 0 || pending[6] != 0 {
          Slide(whole, n, rest);
          continue;
        }
        if |pending| < CandidateLength(pending) {
          break;
        }
        found := TakeFrame(rest);
        if found.Some? {
          MovesThenYields(whole, n, before, 0, found.value, pending + rest);
          return;
        }
        Slide(whole, n, rest);
      }
    }

    /** Of the bytes `whole`, those resynced over since the count was `base` are gone. */
    ghost predicate After(whole: seq<Byte>, base: nat, ends: bool)
      reads this, reader
    {
      base <= resyncs && Gone(whole, resyncs - base, ends, Remaining())
    }

    ghost predicate Ended(whole: seq<Byte>, base: nat, ends: bool, o: Outcome)
      reads this, reader
    {
      base <= resyncs && Result(whole, resyncs - base, ends, o, Remaining())
    }

    /** The inner loop, seen from `whole`. */
    method Work(ghost whole: seq<Byte>, ghost base: nat, ghost ends: bool) returns (found: Option<Frame>)
      requires Valid() && After(whole, base, ends)
      modifies this
      ensures Valid() && |pending| <= old(|pending|)
      ensures found.Some? ==> Ended(whole, base, ends, Delivered(found.value))
      ensures found.None? ==>
        && After(whole, base, ends) && |pending| <= 264
        && (|pending| < MIN_FRAME || |pending| < CandidateLength(pending))
      ensures found.None? ==> !FrameAt(old(pending))
      ensures Scan(old(pending)) == [] ==> found.None? && Scan(pending) == []
    {
      ghost var before, n := Remaining(), resyncs - base;
      found := DecodePending(Deliver(reader.script));
      ghost var m := resyncs - old(resyncs);
      if |pending| >= MIN_FRAME {
        Bytes.ToIntBound(pending[4]);
      }
      if found.Some? {
        GoneThenYields(whole, n, ends, before, m, found.value, Remaining());
      } else {
        GoneMore(whole, n, ends, before, m, Remaining());
      }
    }

    /** One read of `Next`, appended to `pending`; `read` is the chunk read, none past the end. */
    method Fill() returns (got: bool, failed: bool, ghost read: seq<Chunk>)
      requires Valid() && |pending| <= 264
      modifies this`pending, reader
      ensures Valid() && Remaining() == old(Remaining())
      ensures old(reader.script) == read + reader.script
      ensures if old(reader.script) == [] then read == [] && !got && failed
              else read == [old(reader.script)[0]] && got == (read[0].bytes != []) && failed == read[0].failed
      ensures !got ==> pending == old(pending)
      ensures old(Ends(reader.script)) ==> Ends(reader.script) && (!got && failed ==> reader.script == [])
    {
      if reader.script != [] && Ends(reader.script) {
        EndsTail(reader.script);
      }
      read := if reader.script == [] then [] else [reader.script[0]];
      var bytes, err := reader.Read();
      got, failed := bytes != [], err;
      pending := pending + bytes;
    }

    /** The outer loop of `Next` from its read on; `before` are the chunks it has read earlier. */
    method Refill(zeroReads: nat, ghost whole: seq<Byte>, ghost base: nat, ghost ends: bool, ghost before: seq<Chunk>)
      returns (done: Option<Outcome>, zeros: nat, ghost read: seq<Chunk>)
      requires Valid() && After(whole, base, ends) && (ends ==> Ends(reader.script))
      requires zeroReads == Idle(before) < PATIENCE
      requires |pending| <= 264 && (|pending| < MIN_FRAME || |pending| < CandidateLength(pending))
      modifies this, reader
      ensures Valid() && old(reader.script) == read + reader.script && (ends ==> Ends(reader.script))
      ensures zeros == Idle(before + read) && |read| <= 1
      ensures old(reader.script) != [] ==> read == [old(reader.script)[0]]
      ensures done.None? ==>
        After(whole, base, ends) && zeros < PATIENCE && (read != [] || |pending| < old(|pending|))
      ensures done.Some? ==> Ended(whole, base, ends, done.value) && !done.value.Delivered?
      ensures done == Some(StreamError) ==>
        |pending| < MIN_FRAME && zeros < PATIENCE && (read == [] || read[0].failed) && (ends ==> reader.script == [])
      ensures done == Some(NoProgress) ==> zeros == PATIENCE
      ensures read == [Chunk([], false)] ==> pending == old(pending)
    {
      zeros, done := zeroReads, None;
      var got, failed;
      got, failed, read := Fill();
      assert before + [] == before;
      if read != [] {
        IdleMore(before, read[0]);
      }
      if got {
        zeros := 0;
        return;
      }
      if failed {
        if |pending| >= 10 {
          SlideOnError(whole, base, ends);
          return;
        }
        GoneThenError(whole, resyncs - base, ends, Remaining(), StreamError);
        done := Some(StreamError);
        return;
      }
      zeros := zeros + 1;
      if zeros >= 100 {
        GoneThenError(whole, resyncs - base, ends, Remaining(), NoProgress);
        done := Some(NoProgress);
      }
    }

    /** With nothing more to read, an incomplete candidate cannot be a frame. */
    method SlideOnError(ghost whole: seq<Byte>, ghost base: nat, ghost ends: bool)
      requires Valid() && |pending| >= MIN_FRAME && |pending| < CandidateLength(pending)
      requires After(whole, base, ends) && (ends ==> reader.script == [])
      modifies this
      ensures Valid() && pending == old(pending)[1..] && After(whole, base, ends)
    {
      ghost var rest := Deliver(reader.script);
      assert rest == [] ==> pending + rest == pending;
      Slide(whole, resyncs - base, rest);
    }

    /** Where `Next` stands after `read` of `script`; `idle`: all of `read` is, and nothing is pending. */
    ghost predicate Here(whole: seq<Byte>, base: nat, ends: bool, script: seq<Chunk>, read: seq<Chunk>, idle: bool)
      reads this, reader
    {
      && Valid() && After(whole, base, ends) && (ends ==> Ends(reader.script))
      && script == read + reader.script && Progressing(read)
      && (idle ==> OpensIdle(script) && Scan(pending) == [] && |read| == Idle(read))
    }

    /** How `Next` ends, with `o`. */
    ghost predicate Over(
      whole: seq<Byte>, base: nat, ends: bool, script: seq<Chunk>, read: seq<Chunk>, idle: bool, o: Outcome)
      reads this, reader
    {
      && Valid() && Ended(whole, base, ends, o)
      && (ends ==> Ends(reader.script) && (o.StreamError? ==> reader.script == []))
      && (o.StreamError? ==> |pending| < MIN_FRAME)
      && script == read + reader.script && Stops(read, o)
      && (idle ==> o.NoProgress? && |read| == PATIENCE)
    }

    /** One turn of the outer loop. */
    method Turn(
      zeroReads: nat, ghost whole: seq<Byte>, ghost base: nat, ghost ends: bool,
      ghost script: seq<Chunk>, ghost read: seq<Chunk>, ghost idle: bool)
      returns (done: Option<Outcome>, zeros: nat, ghost now: seq<Chunk>)
      requires Here(whole, base, ends, script, read, idle) && zeroReads == Idle(read)
      modifies this, reader
      ensures done.None? ==> Here(whole, base, ends, script, now, idle) && zeros == Idle(now)
      ensures done.None? ==>
        || |reader.script| < old(|reader.script|)
        || (|reader.script| == old(|reader.script|) && |pending| < old(|pending|))
      ensures done.Some? ==> Over(whole, base, ends, script, now, idle, done.value)
      ensures old(FrameAt(pending)) ==> done.Some? && done.value.Delivered? && now == read
    {
      zeros, now := zeroReads, read;
      var found := Work(whole, base, ends);
      if found.Some? {
        done := Some(Delivered(found.value));
        return;
      }
      assert idle ==> reader.script[0] == script[|read|];
      ghost var more;
      done, zeros, more := Refill(zeroReads, whole, base, ends, read);
      ConcatAssociative(read, more, reader.script);
      ProgressingMore(read, more);
      now := read + more;
    }

    /** The outer loop. */
    method Turns(ghost whole: seq<Byte>, ghost base: nat, ghost ends: bool, ghost script: seq<Chunk>, ghost idle: bool)
      returns (o: Outcome, ghost read: seq<Chunk>)
      requires Here(whole, base, ends, script, [], idle)
      modifies this, reader
      ensures Over(whole, base, ends, script, read, idle, o)
      ensures old(FrameAt(pending)) ==> o.Delivered? && read == []
    {
      var zeroReads := 0;
      ghost var front := FrameAt(pending);
      read := [];
      while true
        invariant Here(whole, base, ends, script, read, idle) && zeroReads == Idle(read)
        invariant front ==> FrameAt(pending) && read == []
        decreases |reader.script|, |pending|
      {
        var done;
        done, zeroReads, read := Turn(zeroReads, whole, base, ends, script, read, idle);
        if done.Some? {
          return done.value, read;
        }
      }
    }

    /**
     `Decoder.Next`. From any reader, every byte is counted as dropped, delivered or still to
     come. If errors end the stream, what is returned is what the scan finds next. `read` are the
     chunks the call has read.
     */
    method Next() returns (o: Outcome, ghost read: seq<Chunk>)
      requires Valid()
      modifies this, reader
      ensures Valid() && old(reader.script) == read + reader.script
      ensures Ended(old(Remaining()), old(resyncs), old(Ends(reader.script)), o)
      ensures o.StreamError? ==> |pending| < MIN_FRAME
      ensures old(Ends(reader.script)) ==> Ends(reader.script) && (o.StreamError? ==> reader.script == [])
      // It gives up exactly when it has read 100 times in vain since the last data, and at once.
      ensures Stops(read, o)
      ensures old(Scan(pending)) == [] && old(OpensIdle(reader.script)) ==> o.NoProgress? && |read| == PATIENCE
      // It reads only when there is no frame at the front.
      ensures old(FrameAt(pending)) ==> o.Delivered? && read == []
      ensures old(Progressing(reader.script)) ==> Progressing(reader.script) && !o.NoProgress?
    {
      ghost var ends, script := Ends(reader.script), reader.script;
      GoneNothing(Remaining(), ends);
      assert [] + script == script;
      o, read := Turns(Remaining(), resyncs, ends, script, Scan(pending) == [] && OpensIdle(script));
      if Progressing(script) {
        ProgressingRest(read, reader.script);
      }
    }
  }

  /** A call gives up exactly when it has read 100 times in vain since the last data, and at once. */
  predicate Stops(read: seq<Chunk>, o: Outcome) {
    (o.NoProgress? <==> Idle(read) == PATIENCE) && ProgressingSoFar(read)
  }

  /** Scanning `s` is finding `frames`, moving over `n` bytes in all, and then scanning `t`. */
  ghost predicate Found(s: seq<Byte>, frames: seq<Frame>, n: nat, t: seq<Byte>) {
    Scan(s) == frames + Scan(t) && Slides(s) == n + Slides(t) && Rest(s) == Rest(t)
  }

  lemma FoundNothing(s: seq<Byte>)
    ensures Found(s, [], 0, s)
  {
  }

  lemma FoundMore(s: seq<Byte>, frames: seq<Frame>, n: nat, t: seq<Byte>, m: nat, f: Frame, u: seq<Byte>)
    requires Found(s, frames, n, t) && Yields(t, m, f, u)
    ensures Found(s, frames + [f], n + m, u) && |u| < |t|
  {
    ConcatAssociative(frames, [f], Scan(u));
  }

  lemma FoundAll(s: seq<Byte>, frames: seq<Frame>, n: nat, t: seq<Byte>, m: nat, u: seq<Byte>)
    requires Found(s, frames, n, t) && MovesTo(t, m, u) && |u| < MIN_FRAME
    ensures frames == Scan(s) && n + m == Slides(s) && u == Rest(s)
  {
  }

  /** Calling `Next` until the stream ends, as the read loop and the decoder tests do. */
  method Collect(script: seq<Chunk>) returns (frames: seq<Frame>, resyncs: nat, pending: seq<Byte>)
    requires Fits(script) && Ends(script) && Progressing(script)
    ensures frames == Scan(Deliver(script))
    ensures resyncs == Slides(Deliver(script))
    ensures pending == Rest(Deliver(script))
    ensures |Deliver(script)| == TotalRaw(frames) + resyncs + |pending|
  {
    var reader := new Reader(script);
    var d := new Decoder(reader);
    frames := [];
    ghost var whole := Deliver(script);
    assert d.Remaining() == whole;
    FoundNothing(whole);
    while true
      invariant d.reader == reader && fresh(d) && fresh(reader) && d.Valid()
      invariant Ends(reader.script) && Progressing(reader.script)
      invariant Found(whole, frames, d.resyncs, d.Remaining())
      decreases |d.Remaining()|
    {
      ghost var n, t := d.resyncs, d.Remaining();
      var o, _ := d.Next();
      if !o.Delivered? {
        assert d.Remaining() == d.pending;
        FoundAll(whole, frames, n, t, d.resyncs - n, d.pending);
        break;
      }
      FoundMore(whole, frames, n, t, d.resyncs - n, o.frame, d.Remaining());
      frames := frames + [o.frame];
    }
    resyncs, pending := d.resyncs, d.pending;
    ScanConserves(whole);
  }

  // ----- What the reference scan promises -----

  function TotalRaw(frames: seq<Frame>): nat {
    if frames == [] then 0 else |frames[0].raw| + TotalRaw(frames[1..])
  }

  /** Every byte of a stream is in a delivered frame, moved over, or left at the end. */
  lemma {:induction false} ScanConserves(s: seq<Byte>)
    ensures |s| == TotalRaw(Scan(s)) + Slides(s) + |Rest(s)|
  {
    if |s| >= MIN_FRAME {
      if FrameAt(s) {
        ScanConserves(s[CandidateLength(s)..]);
      } else {
        ScanConserves(s[1..]);
      }
    }
  }

  /** Frames that can be sent: short enough to encode, and not the all-zero frame. */
  predicate Sendable(f: Frame) {
    |f.data| <= MAX_DATA && !IsZeroFrame(f)
  }

  predicate AllSendable(frames: seq<Frame>) {
    frames == [] || (Sendable(frames[0]) && AllSendable(frames[1..]))
  }

  function EncodeAll(frames: seq<Frame>): seq<Byte>
    requires AllSendable(frames)
  {
    if frames == [] then [] else Wire(frames[0]) + EncodeAll(frames[1..])
  }

  /** The frames as they arrive: the same, with their wire bytes recorded. */
  function Received(frames: seq<Frame>): seq<Frame>
    requires AllSendable(frames)
  {
    if frames == [] then [] else [frames[0].(raw := Wire(frames[0]))] + Received(frames[1..])
  }

  lemma WireStarts(f: Frame, rest: seq<Byte>)
    requires Sendable(f)
    ensures FrameAt(Wire(f) + rest) && CandidateLength(Wire(f) + rest) == |Wire(f)|
    ensures Parse(Wire(f)) == f.(raw := Wire(f))
  {
    DecodeEncode(f);
    assert Wire(f)[..|Wire(f)|] == Wire(f);
    FrameAtPrefix(Wire(f), rest);
  }

  lemma ScanWire(f: Frame, rest: seq<Byte>)
    requires Sendable(f)
    ensures Scan(Wire(f) + rest) == [f.(raw := Wire(f))] + Scan(rest)
    ensures Slides(Wire(f) + rest) == Slides(rest)
    ensures Rest(Wire(f) + rest) == Rest(rest)
  {
    var w := Wire(f);
    WireStarts(f, rest);
    assert (w + rest)[..|w|] == w && (w + rest)[|w|..] == rest;
  }

  /** Concatenated encodings scan back to the same frames, with no resync and nothing left. */
  lemma {:induction false} ScanEncodings(frames: seq<Frame>)
    requires AllSendable(frames)
    ensures Scan(EncodeAll(frames)) == Received(frames)
    ensures Slides(EncodeAll(frames)) == 0
    ensures Rest(EncodeAll(frames)) == []
  {
    if frames != [] {
      var w, rest := Wire(frames[0]), EncodeAll(frames[1..]);
      ScanEncodings(frames[1..]);
      ScanWire(frames[0], rest);
    }
  }

  /**
   A prefix in which no offset starts a valid frame costs exactly its own length in
   resyncs, and no frame after it is lost.
   */
  lemma {:induction false} ScanSkipsGarbage(garbage: seq<Byte>, s: seq<Byte>)
    requires |s| >= MIN_FRAME
    requires forall i :: 0 <= i < |garbage| ==> !FrameAt((garbage + s)[i..])
    ensures Scan(garbage + s) == Scan(s)
    ensures Slides(garbage + s) == |garbage| + Slides(s)
    ensures Rest(garbage + s) == Rest(s)
  {
    if garbage == [] {
      assert garbage + s == s;
    } else {
      var g := garbage[1..];
      assert (garbage + s)[1..] == g + s;
      assert !FrameAt((garbage + s)[0..]) && (garbage + s)[0..] == garbage + s;
      forall i | 0 <= i < |g| ensures !FrameAt((g + s)[i..]) {
        assert (g + s)[i..] == (garbage + s)[i + 1..];
      }
      ScanSkipsGarbage(g, s);
    }
  }

  /** Garbage before well-formed traffic: every frame arrives, at the price of the garbage alone. */
  lemma GarbageThenFrames(garbage: seq<Byte>, frames: seq<Frame>)
    requires frames != [] && AllSendable(frames)
    requires forall i :: 0 <= i < |garbage| ==> !FrameAt((garbage + EncodeAll(frames))[i..])
    ensures Scan(garbage + EncodeAll(frames)) == Received(frames)
    ensures Slides(garbage + EncodeAll(frames)) == |garbage|
    ensures Rest(garbage + EncodeAll(frames)) == []
  {
    ScanSkipsGarbage(garbage, EncodeAll(frames));
    ScanEncodings(frames);
  }
}
