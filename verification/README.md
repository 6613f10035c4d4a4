# infinid: a verified model

infinid is a daemon that listens on a proprietary RS-485 HVAC bus, reads a few registers from it,
assembles what it hears into a state, publishes that state over MQTT and journals what goes wrong.
This project models its six stateful components in Dafny and proves what they promise, over every
byte stream, every run, every history and every interleaving.

Verify everything with `dafny verify dfyconfig.toml`.

| File | Models | Proves, above all |
|---|---|---|
| `Crc.dfy`, `Division.dfy`, `Bytes.dfy` | the checksum | it is the remainder of a polynomial division; it is XOR-linear; odd-weight errors and errors in two adjacent bytes always show, at every length |
| `Frame.dfy` | the frame codec | encoding and decoding undo each other, and corrupted frames are refused |
| `Decoder.dfy` | the resynchronising stream decoder | delivery never depends on how the stream is cut into reads; no byte is lost or counted twice |
| `Scheduler.dfy`, `SchedulerRuns.dfy`, `Vectors.dfy` | the SAM read scheduler | accounting, backoff and the rest it means, spacing, wire safety, bounded overtaking and a deadline for every due target |
| `Entities.dfy`, `Exporter.dfy`, `Snapshots.dfy` | the MQTT exporter and its topics | convergence of the broker's retained map over a lossy transport, and quiescence |
| `Events.dfy`, `Liveness.dfy`, `Journal.dfy` | the event journal | replaying the log rebuilds live memory; exactly which fault tables are silent when read again; liveness flags are what their definitions say; the log is well-formed |
| `Readings.dfy`, `Assembler.dfy` | the state assembler | the state is a function of the reading history, defined without the assembler |
| `Protocol.dfy`, `Holds.dfy`, `Presence.dfy` | the zone-scoped decoders, and frames run through the assembler | hold countdowns follow the last push; decoded frames never retract a zone |
| `Pipeline.dfy` | frames to broker, end to end | everything decoded is shown |
| `Totals.dfy`, `Outages.dfy` | the daemon's goroutines and counters | totals are exact under every interleaving, without deadlock; one outage verdict per process, against the right reference |

Methods follow the source's loops and updates and are proved equal to specification functions. The
lemmas are about those functions. Numbers that Go keeps in machine words are unbounded, except in the
codec, where bytes are `bv8` and the checksum register is `bv16`. Times are integers of nanoseconds; a Go
`time.Time` that may be zero is an `Instant`.

## Where the code and its documentation part

- `state/state.go:48-55` says that a later mask can retract a zone which the mask alone established. The
  code can (`Presence.ReadingsRetract`), but every frame that carries the mask also carries a reading for each
  zone the mask names (`protocol/sam.go:32-44`), and any zone reading that is not a damper's makes a zone
  permanent. So no sequence of decoded frames ever removes a zone (`Presence.ZonesOnlyGrow`).
- `state/journal.go:211-215` says that a key that drops out of the counters is a change. It is not one if the
  counter is zero and another key comes in (`Journals.ZeroCounterMissed`); `Journals.MissedExactly` gives all the
  changes that are missed. Over the same keys the comparison is exact (`Journals.SameCountersExact`).
- An empty text payload is only sent if its topic is remembered or on a beat, because a missing key of the
  exporter's memory reads as the empty string (`mqtt/exporter.go:250`). `Exporters.ShownExactlyIfReached` says
  exactly when a field of the snapshot reaches the broker, and `Exporters.EmptyTextMissed` shows one that does not.
  The daemon's own decoders never produce an empty text (`Pipeline.StateIsWorded`), so all they decode reaches it
  (`Pipeline.DecodedReaches`).
- `faultKey` leaves out the source (`state/journal.go:111-113`), so one table can have several entries under one
  key, and some such tables are news on every read (`Events.DuplicateKeysAreNews`). `Events.RereadSilentExactly`
  says which: those with an active entry whose key also has cleared ones, all of a lower count, unless a
  cleared fault of that key and at least that count was already known.
- The comments on the scheduler ask for a single goroutine (`sam/scheduler.go:52-53`), and the daemon has two.
  `Totals.SchedulerGuarded` shows that the daemon's lock makes up for it.

## Model

| member | source | states |
|---|---|---|
| Crc.Crc16Arc | bus/frame.go:50-63 | The nested loops compute the register after feeding every byte through eight reflected shifts |
| Crc.FeedByte | bus/frame.go:53-60 | The inner loop is eight shifts of the register XORed with the byte |
| Crc.Crc16Linear | bus/frame.go:50-63 | The checksum of the XOR of two strings of equal length is the XOR of their checksums |
| Crc.ResidueIsZero | bus/frame.go:114-119 | Comparing the transmitted checksum with the computed one holds exactly when the checksum of the whole buffer is zero |
| Crc.Crc16Parity | bus/frame.go:50-63 | The parity of the register is the parity of the number of set bits fed to it, for every length |
| Crc.BurstRegister | bus/frame.go:50-63 | An error pattern confined to two adjacent bytes leaves a register that is zero up to it and never zero after it |
| Crc.DetectableChangesResidue | bus/frame.go:50-63 | Any odd number of flipped bits, or any nonzero change inside two adjacent bytes, turns residue zero into a nonzero one |
| Division.RemainderExactly | bus/frame.go:48-49 | Long division by x^16 + x^15 + x^2 + 1 yields the remainder: r is it exactly if the polynomial is a multiple of the generator plus r, of degree below 16 |
| Division.ShiftDivides | bus/frame.go:55-59 | One shift of the register is one step of that division, on reflected coefficients |
| Division.ChecksumIsRemainder | bus/frame.go:48-63 | The checksum, reflected, is the remainder of the reflected message times x^16 |
| Division.ChecksumExactly | bus/frame.go:48-63 | A register is the checksum of a message exactly if, reflected, it is such a remainder of it |
| Division.CheckValue | bus/frame_test.go:18-23 | The check value of CRC-16/ARC: "123456789" gives 0xBB3D |
| Frames.Encode | bus/frame.go:80-96 | Encoding yields the wire form: header, data, checksum low byte first |
| Frames.Decode | bus/frame.go:100-126 | A buffer is taken exactly when it has ten bytes, is not all zero and has residue zero; otherwise the receiver stays as it is |
| Frames.SealedResidue | bus/frame.go:92-94 | A sealed body has residue zero and no other two-byte trailer gives it one |
| Frames.WireAllZero | bus/frame.go:104-113 | The all-zero wire form belongs to exactly one frame |
| Frames.DecodeEncode | bus/frame.go:80-126 | Decoding an encoding gives the frame back, and it is refused exactly for the all-zero frame |
| Frames.EncodeDecode | bus/frame.go:80-126 | Every accepted buffer whose header describes it re-encodes to itself |
| Frames.CorruptionRefused | bus/frame.go:100-119 | Odd-weight corruption and corruption of two adjacent bytes of an accepted buffer are refused |
| Decoders.Decoder.DecodePending | bus/decoder.go:29-51 | The inner loop yields the next frame of the reference scan, or stops where more bytes are needed, independently of bytes not yet read |
| Decoders.Decoder.TakeFrame | bus/decoder.go:39-47 | A complete candidate is taken exactly if it is a frame, which re-encodes to the bytes taken |
| Decoders.Decoder.Fill | bus/decoder.go:52-57 | One read is appended to the buffer, and an error that comes with data is dropped |
| Decoders.Decoder.Refill | bus/decoder.go:52-74 | One read, the count of idle reads since the last data kept exactly; an error surfaces only with fewer than ten bytes pending, and otherwise slides one byte, which is counted |
| Decoders.Decoder.Turn | bus/decoder.go:28-75 | One turn of the outer loop reads only if the inner loop finds no frame, and ends the call at the hundredth idle read and not before |
| Decoders.Decoder.Next | bus/decoder.go:26-76 | From any reader every byte is delivered in a frame that re-encodes to it, counted as a resync or still to come; the buffer stays within 264 + 1024 bytes; the call terminates. It gives up exactly at the hundredth idle read since the last data, at once if a stream with no frame pending opens idle; it reads nothing while a frame is at the front. If errors end the stream, a delivered frame is the next of the reference scan, and an error surfaces only when nothing more can be decoded |
| Decoders.Collect | bus/decoder_test.go:37-50 | For every stream and every way of cutting it into reads, repeated Next calls return the one-pass scan's frames, resyncs and leftover |
| Decoders.SlideMoves | bus/decoder.go:34-50 | Where no frame starts, dropping one byte is one step of the scan |
| Decoders.FrameMoves | bus/decoder.go:39-46 | Where a frame starts, taking it is one step of the scan, and it re-encodes to the bytes taken |
| Decoders.ScanConserves | bus/decoder.go:26-76 | The length of every stream is the delivered frames' bytes plus resyncs plus leftover |
| Decoders.ScanEncodings | bus/decoder.go:26-50 | Concatenated encodings of any frames scan back to those frames with no resync and nothing left |
| Decoders.ScanSkipsGarbage | bus/decoder.go:29-47 | A prefix in which no offset holds a valid frame costs exactly its length and loses nothing after it |
| Decoders.GarbageThenFrames | bus/decoder.go:29-47 | Garbage before well-formed traffic costs its own length, and every frame arrives |
| Schedulers.Pick | sam/scheduler.go:96-107 | The pick is due, most overdue, and first among equals; there is none exactly when nothing is due |
| Schedulers.Scheduler.constructor | sam/scheduler.go:66-75 | A new scheduler has every interval floored and nothing pending |
| Schedulers.Scheduler.FailPending | sam/scheduler.go:87-91 | A failed request backs its target off, frees the slot and is counted |
| Schedulers.Scheduler.MostOverdue | sam/scheduler.go:96-104 | The selection loop finds the specified pick |
| Schedulers.Scheduler.Send | sam/scheduler.go:108-121 | A request that the port takes is pending and on the wire; one it refuses is a failure that consumes the gap |
| Schedulers.Scheduler.Tick | sam/scheduler.go:82-122 | A tick is one step of the specification, and writes at most one READ request |
| Schedulers.Scheduler.NoteFrame | sam/scheduler.go:131-156 | A noted frame completes, fails or leaves the pending request as the specification says |
| SchedulerRuns.Accounting | sam/scheduler.go:82-160 | In every run write attempts are matched ACKs plus failures plus the one outstanding |
| SchedulerRuns.FailuresGrow | sam/scheduler.go:158-160 | The failure count never falls |
| SchedulerRuns.NextBackoffDoubles | sam/scheduler.go:36-45 | One more failure takes the k-failure backoff to the (k+1)-failure one |
| SchedulerRuns.BackoffLaw | sam/scheduler.go:36-45 | In every run a target with k timeouts and NACKs since its last ACK has backoff 0 or min(4 * 2^(k-1), 600) s, write errors not counting |
| SchedulerRuns.FailureRests | sam/scheduler.go:87-91 | After its k-th timeout or NACK in a row a target is not due before exactly its k-failure backoff has passed, whatever the run before |
| SchedulerRuns.AnswerRests | sam/scheduler.go:153-155 | After an ACK a target is not due before exactly its interval has passed, which is at least 5 s |
| SchedulerRuns.RefusalRests | sam/scheduler.go:110-117 | After a refused write a target is not due before exactly 2 s have passed |
| SchedulerRuns.RestsUntil | sam/scheduler.go:96-104 | No event before its time is up attempts a resting target, and nothing shortens its rest |
| SchedulerRuns.AskedAgain | sam/scheduler.go:82-122 | After its rest a target is asked again, not before its time and by the deadline counted from then |
| SchedulerRuns.OverExactly | sam/scheduler.go:83-91 | An outstanding request ends exactly with a refusal, an answer for its register from the wall control to the SAM, or a tick after 2 s |
| SchedulerRuns.StaysPending | sam/scheduler.go:131-152 | Without any of these nothing changes and nothing is sent |
| SchedulerRuns.SpacingFrom | sam/scheduler.go:93-121 | From any state, consecutive attempts are at least 2 s apart, and 2 s after the last send before |
| SchedulerRuns.Spacing | sam/scheduler.go:93-95 | Any window of length W holds at most W / 2 s + 1 attempts |
| SchedulerRuns.WireSafety | sam/scheduler.go:108-110 | Every byte a run writes belongs to a READ request from SAM to wall control for a configured register |
| Vectors.RequestOnTheWire | sam/scheduler.go:108-110 | The request for register 003b02 goes out as the thirteen bytes 20 01 92 01 03 00 00 0b 00 3b 02 2d 7a |
| SchedulerRuns.PassOver | sam/scheduler.go:96-104 | An event that passes over an overdue target leaves it overdue, and whoever it serves instead is not served again before it |
| SchedulerRuns.OvertakenAtMostOnce | sam/scheduler.go:82-156 | While a target is due and not attempted, every other target is attempted at most once |
| SchedulerRuns.InTurnStep | sam/scheduler.go:82-122 | The invariant behind the deadline: every gap serves one more of the other targets |
| SchedulerRuns.ServesInTurn | sam/scheduler.go:82-122 | From the first tick that finds a target due, it is attempted within one gap and one tick per target |
| SchedulerRuns.AttemptedByDeadline | sam/scheduler.go:82-156 | With n targets and ticks at most D apart, a target due at d is attempted by d + D + n * (2 s + D), whatever is answered, refused or lost |
| SchedulerRuns.Invoke | sam/scheduler.go:82-156 | One call on the object is one step of the specification, on the wire too |
| SchedulerRuns.Drive | sam/scheduler.go:82-156 | Every sequence of calls is a run of the specification, and has written that run's bytes |
| Entities.DecimalInjective | mqtt/exporter.go:77 | Decimal rendering tells numbers apart |
| Entities.ZoneIdInjective | mqtt/entities.go:74-91 | Zone entities of different kinds or of differently named zones have different ids, whatever the names |
| Entities.FallbackNamesDistinct | mqtt/exporter.go:73-78 | Two zones have the same fallback name exactly if they are the same zone |
| Entities.DistinctNamesExactly | mqtt/exporter.go:73-78 | Under any configuration names are distinct exactly if no two zones are configured alike and none is configured as the fallback of an unnamed one |
| Entities.SharedTopicExactly | mqtt/exporter.go:193-201 | Two zone slots share a topic exactly if they are the same entity of zones with the same name |
| Entities.ConfiguredFallbackCollides | docs/MQTT-CONTRACT.md:43-44 | A zone configured as another's fallback name shares all its topics |
| Entities.TopicsDistinct | mqtt/entities.go:35-91 | Distinct zone names give pairwise distinct state topics, distinct from the system's |
| Entities.HealthTopicsApart | mqtt/entities.go:93-104 | No health topic is a state topic, whatever zones are called |
| Entities.HealthTopicsDistinct | mqtt/entities.go:93-104 | Health topics are pairwise distinct |
| Entities.SystemTopics | mqtt/entities.go:35-63 | Every system topic is named after its field, but for the filter's |
| Entities.ZoneTopic | docs/MQTT-CONTRACT.md:48-50 | Every zone topic is zone_<name>_<field>, the countdown's hold_remaining and the damper's damper_<name> |
| Entities.Renderings | mqtt/entities.go:35-91 | Which fields are shown as text, percent, inverted or rounded; all others as the plain number |
| Exporters.PublishStepAt | mqtt/exporter.go:249-256 | One publish keeps exporter and broker in sync, changes one topic, and if it succeeds leaves that topic showing its payload |
| Exporters.RetractStepAt | mqtt/exporter.go:218-223 | One retraction keeps exporter and broker in sync and, if it succeeds, leaves "None" retained and forgotten |
| Exporters.PublishNext | mqtt/exporter.go:186-202 | Publishing one more slot leaves the slots before it as published, when topics are distinct |
| Exporters.RetractNext | mqtt/exporter.go:203-224 | Retracting one more topic leaves the topics before it as retracted |
| Exporters.CallAchieves | mqtt/exporter.go:180-225 | From any synchronised state, both passes without a failure make the broker converge, the memory settle, charge absent topics for what they send, and on a beat send every field again |
| Exporters.FieldsShown | mqtt/exporter.go:237-248 | After such a call a stale field's topic shows "None", a fresh text field's its text and a fresh number's its formatted value, where it reaches the broker |
| Exporters.ShownExactlyIfReached | mqtt/exporter.go:250-255 | A topic published before shows its field exactly if the payload is not empty, it is a beat, or the topic is remembered |
| Exporters.EmptyTextMissed | mqtt/exporter.go:250-252 | A retracted topic whose text comes back empty, off the beat, is not sent to and keeps showing "None" |
| Exporters.SettledOffBeat | mqtt/exporter.go:180-225 | What there is to remember of a snapshot does not depend on the beat |
| Exporters.Exporter.constructor | mqtt/exporter.go:54-57 | A new exporter is synchronised with any broker |
| Exporters.Exporter.Reassert | mqtt/exporter.go:65-71 | After Reassert the exporter is synchronised again, whatever the broker has lost |
| Exporters.Exporter.PublishField | mqtt/exporter.go:237-257 | A field is published unless its payload is remembered and no beat forces it |
| Exporters.Exporter.PublishSlot | mqtt/exporter.go:186-201 | One turn of the table loops publishes a present field, on a beat an absent one, and keeps the topics produced |
| Exporters.Exporter.PublishSystem | mqtt/exporter.go:186-192 | The system loop publishes exactly the system slots |
| Exporters.Exporter.PublishZone | mqtt/exporter.go:194-201 | The inner loop publishes exactly the slots of one zone |
| Exporters.Exporter.PublishZones | mqtt/exporter.go:193-202 | The zone loop publishes every slot of every zone, in any order |
| Exporters.Exporter.RetractTopic | mqtt/exporter.go:204-223 | One turn of the retraction loop retracts the topic exactly if it is remembered, not produced and not "None" |
| Exporters.Exporter.RetractAbsent | mqtt/exporter.go:203-224 | The retraction loop retracts exactly the retractable topics, in any order |
| Exporters.Exporter.PublishJob | mqtt/exporter.go:180-225 | Both passes together converge when nothing fails and send nothing when nothing is new |
| Exporters.Exporter.PublishState | mqtt/exporter.go:180-225 | From any reachable state, after any failures, a call whose publishes all succeed leaves the broker showing the snapshot field by field, with "None" wherever a field is stale or absent, sends every field on a beat, and leaves a memory on which the same snapshot off the beat sends nothing |
| Exporters.PublishTwice | mqtt/exporter.go:180-225 | A snapshot published without failure, on a beat or not, and then again off the beat: the second call sends nothing and changes nothing; the next beat comes exactly 60 s after the last |
| Exporters.Exporter.PublishVital | mqtt/exporter.go:285-293 | One vital is published unless remembered, and stays apart from state topics |
| Exporters.Exporter.PublishHealth | mqtt/exporter.go:280-317 | With no failure every vital is sent exactly if it is new or a beat; off the beat known vitals send nothing; no topic but health topics is sent to or changes |
| Exporters.VitalShown | mqtt/exporter.go:285-293 | Publishing one health topic leaves every other topic alone |
| Exporters.VitalsOnTopics | mqtt/exporter.go:294-316 | The broker then shows each vital on the topic of its name: numbers formatted, no fault as "None", flags as ON or OFF |
| Exporters.PublishCycles | mqtt/exporter.go:203-235 | Over any number of cycles of state and health without failure, a topic whose field stays absent is sent "None" at most twice |
| Events.RecordRoundTrip | state/journal.go:103-109 | A journaled fault reads back as it was, source byte included |
| Events.HexDigitsOf | state/journal.go:303-306 | A fault's source is journaled as two lower-case hex digits, the high one first |
| Events.SameFaultExactly | state/journal.go:111-113 | Two faults are one exactly if they share the code and the second they first occurred in |
| Events.DiffInOrder | state/journal.go:286-300 | What a read journals of a fault is true of it: seen if unknown, cleared if it was active, recurred if its count rose |
| Events.FaultLogAt | state/journal.go:276-301 | In the log of a process every fault event is true of what replaying the log before it gives |
| Events.SeenAgainAfterWipe | state/journal.go:276-301 | In the log of a process a fault is seen again only after its history was wiped |
| Events.ReplayKeyed | state/journal.go:76-87 | Replay files every fault under its own key |
| Events.LearnedIsNoNews | state/journal.go:286-300 | After a read of a table that settles every fault of it is known |
| Events.RereadIsNoNews | state/journal.go:276-301 | Reading a table that settles again journals nothing and changes nothing |
| Events.SilentSettles | state/journal.go:276-301 | A second read is silent only if the table settles |
| Events.RereadSilentExactly | state/journal.go:276-301 | For every known set and every table, duplicate keys included, a second read is silent exactly if no active entry that shares its key with a cleared one has a count above every cleared fault of that key |
| Events.RereadAlwaysSilent | state/journal.go:276-301 | A second read is silent whatever was known exactly if the table settles by itself |
| Events.SettlesAnyway | state/journal.go:111-113 | A table with distinct keys settles whatever was known |
| Events.DuplicateKeysAreNews | state/journal.go:286-300 | A table with one key three times is news on every read: it journals again and leaves what is known as it was |
| Liveness.CheckSound | state/journal.go:162-202 | One check makes the flags equal to their definitions |
| Liveness.RunSound | state/journal.go:145-202 | Last-heard times are those of the history, and the flags never claim too much |
| Liveness.FlagsAreExact | state/journal.go:145-202 | After every check that follows a device heard, the bus is silent exactly when every device is over 60 s old, and otherwise the lost devices are exactly those unheard for over 30 s |
| Liveness.NeverHeardExact | state/journal.go:168-181 | While nothing was ever heard, the bus is silent exactly when the first check was over 60 s ago, and no device is lost |
| Liveness.HistoriesAlternate | state/journal.go:145-202 | Silent and recovered strictly alternate, and so do lost and recovered for every device, starting with lost |
| Liveness.SilenceHasNoDeviceEvents | state/journal.go:188-195 | Between bus_silent and its bus_recovered there is no device event |
| Journals.SameCountersExact | state/journal.go:219-239 | Over the same keys the comparison of counters is equality |
| Journals.MissedExactly | state/journal.go:219-239 | A change of counters goes unjournaled exactly if it only exchanges zero counters for others |
| Journals.ZeroCounterMissed | state/journal.go:219-239 | A zero counter and a missing one are taken for the same |
| Journals.Journal.constructor | state/journal.go:59-97 | Opening a journal gives exactly the faults and counters that folding its log gives, and fresh liveness |
| Journals.Journal.NoteDevice | state/journal.go:135-155 | Hearing a device journals the recoveries that it means, and keeps log and memory in step |
| Journals.Journal.Newest | state/journal.go:182-187 | The loop finds the newest last-seen time |
| Journals.Journal.MarkLost | state/journal.go:196-201 | Exactly the devices unheard for over 30 s become lost, each journaled once |
| Journals.Journal.CheckLiveness | state/journal.go:162-202 | A check is the specified step of the flags, and journals only liveness events in order |
| Journals.Journal.NotePowerCounters | state/journal.go:216-241 | New counters are journaled and remembered exactly when they differ |
| Journals.Journal.ClassifyGap | state/journal.go:251-269 | One verdict is journaled: the comparison of the pair with the remembered counters |
| Journals.Journal.WipeFaults | state/journal.go:279-285 | An emptied history journals one wipe for every known fault and forgets them all |
| Journals.Journal.NoteFaults | state/journal.go:276-301 | A read journals exactly its news and learns it; an empty one wipes |
| Journals.Journal.NoteFault | state/journal.go:286-300 | One entry is seen, cleared, recurred or no news |
| Journals.Journal.File | state/journal.go:286-300 | Filing a fault journals one event in order and keeps log and memory in step |
| Journals.Monitor | state/journal.go:145-202 | Any sequence of liveness calls leaves the flags of its history and a well-formed log |
| Journals.Restart | state/journal.go:59-97 | A restart recovers the known faults and counters and writes nothing |
| Journals.RereadAfterRestart | state/journal.go:276-306 | Reading the same table again after a restart appends nothing exactly if the table settles on what was known before the first read |
| Assembler.State.constructor | state/state.go:56-62 | A new state has zone 1 alone |
| Assembler.State.ApplyActiveZonesMask | state/state.go:124-142 | The mask loop is the specified pass over zones 1 to 8 |
| Assembler.State.ApplyReading | state/state.go:68-117 | Applying a reading is the specified step |
| Assembler.State.TakeSnapshot | state/state.go:145-160 | A snapshot has every zone and field, with staleness as of now, and nothing else |
| Assembler.LatestIsLatest | state/state.go:75-84 | The latest reading of a field is one that no earlier one is newer than and every later one is older than |
| Assembler.RunOwed | state/state.go:64-142 | After every sequence of readings the zones and the retractable zones are those that sensing and the last accepted mask call for |
| Assembler.SystemShowsLatest | state/state.go:74-86 | A system field is there exactly if it was ever received, and shows the latest reading |
| Assembler.StateIsHistory | state/state.go:56-142 | Zones are {1}, zones ever sensed, and the last accepted mask's; retractable ones are those of the mask alone; system fields show the latest reading |
| Assembler.ZoneShowsLatest | state/state.go:88-105 | Every zone field but the countdown and the dampers' shows the latest reading ever received, so no mask loses it |
| Assembler.DamperShowsLatest | state/state.go:88-105 | A damper field shows the latest reading since its zone was last established; earlier ones and those for absent zones do not count |
| Assembler.Assemble | state/state.go:68-117 | Feeding readings one by one builds the state of the whole history |
| Protocol.DecodeDampers | protocol/zone.go:27-49 | The damper loop reads the eight slots, leaving out absent ones |
| Protocol.DecodePush | protocol/zone.go:53-72 | A zone push reads as hold, fan mode, setpoints and, for a timed hold alone, the countdown |
| Protocol.DecodeState | protocol/sam.go:23-55 | The SAM state frame reads as the mask, two readings for each zone it names, and the system's |
| Protocol.DecodeSettings | protocol/sam.go:61-108 | The SAM zone settings read as four or five readings for each zone of their mask |
| Protocol.Stamp | protocol/protocol.go:170-174 | The stamping loop gives every reading its owner, register and arrival time and changes nothing else |
| Protocol.DecodeFrame | protocol/protocol.go:28-176 | A frame is decoded exactly if the dispatch has a decoder for it, and every reading is stamped with its owner, register and time |
| Protocol.DampersExactly | protocol/zone.go:36-41 | A damper reading is there exactly if its slot is not 0xff, and shows that slot |
| Protocol.PushExactly | protocol/zone.go:53-72 | A zone push has exactly the hold, fan mode, heat and cool setpoint of bytes 1, 5, 6 and 7, and for a timed hold the countdown of bytes 3 and 4 |
| Protocol.StatusExactly | protocol/zone.go:76-84 | A sensor status has exactly the temperature in sixteenths of bytes 9 and 10 and the humidity of byte 12 |
| Protocol.SystemStateExactly | protocol/sam.go:23-56 | The SAM state has exactly those zone readings and the five of the system |
| Protocol.DigitsOfByte | protocol/sam.go:45-53 | Stage and mode are the two digits of their byte; the outdoor temperature is a signed byte |
| Protocol.TextsExactly | protocol/zone.go:5-12 | Which byte is which fan or system mode |
| Protocol.SensorsExactly | protocol/zone.go:16-22 | The addresses 0x2101 to 0x2801 are the zones one to eight, and no other address is a zone's |
| Protocol.RoutedExactly | protocol/protocol.go:28-176 | Each zone-scoped register is decoded exactly from its own sender or to its own receiver, and by its own op |
| Protocol.ReadExactly | protocol/protocol.go:103-146 | And reads as its own decoder says |
| Protocol.StampsAll | protocol/protocol.go:170-174 | Every reading of a frame bears the frame's register, owner and time |
| Protocol.StateZonesExactly | protocol/sam.go:32-44 | The SAM state has exactly the temperature and humidity readings of the zones of its mask, from bytes 3 and 11 on |
| Protocol.StateZonesSeparate | protocol/sam.go:32-44 | No reading of a SAM state overwrites another |
| Protocol.ZoneSettingsExactly | protocol/sam.go:61-108 | The SAM settings have exactly the readings of the zones of their mask, from bytes 3, 11, 12, 20 and 38 on, with no duration where it is 0xffff |
| Protocol.ZoneSettingsSeparate | protocol/sam.go:61-108 | No reading of the SAM settings overwrites another |
| Protocol.OnlyPushesHold | protocol/protocol.go:113-119 | No frame but a zone push emits a hold field of a zone, no SAM frame in particular |
| Holds.OtherReading | state/state.go:88-117 | A reading that is not a hold field of a zone leaves its hold as it was |
| Holds.PushApplied | protocol/zone.go:53-72 | After a push the zone shows that push's hold, with a countdown exactly if it is timed |
| Holds.HoldsFollowPushes | state/state.go:107-116 | For every sequence of frames in order of time, at every frame boundary a zone's hold fields are those of its last push |
| Holds.CountdownIffHold | protocol/protocol.go:113-119 | The countdown is shown exactly when hold is present and nonzero, with the last push's ticks over 30 |
| Holds.ApplyEach | cmd/infinid/main.go:343-346 | The loop over the readings of a frame applies them all, in order |
| Holds.Follow | cmd/infinid/main.go:327-346 | Decoding frames as they arrive and applying their readings gives the state that the frame-level results are about |
| Presence.MaskAgrees | state/state.go:126 | The decoder and the assembler read the same zones off the mask byte |
| Presence.StateFrameSettles | protocol/sam.go:23-55 | A decoded SAM state frame leaves no zone retractable and removes none |
| Presence.ZonesOnlyGrow | state/state.go:124-142 | Over every sequence of decoded frames no zone is ever retractable at a frame boundary, and none is ever removed |
| Presence.ReadingsRetract | state/state.go:133-140 | Over bare readings the retraction is real |
| Pipeline.TextsSaySomething | protocol/zone.go:7-12 | Fan and mode texts are never empty |
| Pipeline.StateIsWorded | state/state.go:68-117 | Whatever frames arrive, no text field that is published is ever empty |
| Pipeline.DecodedReaches | mqtt/exporter.go:237-257 | Every field of a snapshot of decoded state reaches the broker, whatever the exporter remembers |
| Pipeline.StaleExactly | state/state.go:28-35 | A field is stale exactly when its reading is over three hours old for the four life fields, and over five minutes for all others |
| Pipeline.StateOfReadings | state/state.go:68-117 | The state after some frames is that of all their readings in order |
| Pipeline.ReadingsDisplayed | mqtt/exporter.go:180-257 | A converged broker shows on every topic but the countdown's the latest reading of its field, unless that is too old |
| Pipeline.Show | cmd/infinid/main.go:327-346 | Frames decoded, applied, copied and published without a failure leave the broker showing, topic by topic, the latest reading the frames gave, or "None" if it is over five minutes old (three hours for filter life) or, on a beat, if there is none |
| Totals.BlockLocks | cmd/infinid/main.go:288-296 | Every step in the folding block keeps the locks with those who use them |
| Totals.BlockFailures | cmd/infinid/main.go:361-370 | Every step in the folding block keeps the total and what the lock's holder owes equal to all failures |
| Totals.LoopResyncs | cmd/infinid/main.go:307-337 | Every step of the read loop keeps the resync total and what it owes equal to all resyncs |
| Totals.TapsCountSlides | cmd/infinid/main.go:302-307 | In every state each decoder has counted exactly the bytes that the scan of its stream has moved over |
| Totals.Invariant | cmd/infinid/main.go:242-370 | Every state of every interleaving satisfies the invariant |
| Totals.FailuresExact | cmd/infinid/main.go:242-300 | Whenever the scheduler's lock is free the failure total is the sum over every scheduler ever created, and never more at any time |
| Totals.ResyncsExact | cmd/infinid/main.go:307-337 | After every fold the resync total is the sum over every decoder ever created, which is what the scans of their streams move over |
| Totals.TotalsNeverFall | cmd/infinid/main.go:233-242 | Neither total ever falls, across any number of reconnects |
| Totals.SchedulerGuarded | cmd/infinid/main.go:258-273 | The scheduler is only called under its lock, and never after its port is closed |
| Totals.HolderProgress | cmd/infinid/main.go:283-296 | While a lock is held some holder can step, and each such step comes closer to both being free |
| Totals.LocksComeFree | cmd/infinid/main.go:283-296 | From every reachable state the holders alone can free both locks in a bounded number of steps |
| Outages.FirstCompleteIsFirst | cmd/infinid/main.go:398-411 | The moment of classification is the first at which both counters have been seen |
| Outages.Daemon.TrackCounter | cmd/infinid/main.go:391-419 | A counter reading is kept; a complete pair adds exactly its verdict by the old reference, if it is the first, and then itself, if it differs from the reference, which it becomes |
| Outages.Daemon.Report | cmd/infinid/main.go:413-418 | The verdict is journaled before the pair, and the pair becomes the reference |
| Outages.NotedPair | state/journal.go:219-241 | On a log of the daemon's own pairs, a pair once noted is the reference |
| Outages.Process | cmd/infinid/main.go:391-419 | A process classifies the gap at most once, at the first complete pair, against the counters the earlier log ends with, whatever else is journaled in between; and replaying its log gives the last pair it saw |
| Outages.Lives | state/journal.go:59-97 | Over any number of restarts replaying the log gives the running process's memory, and every process is classified exactly once it sees a pair, against the pair its predecessors ended with |
| Outages.ReferenceIsLast | state/journal.go:73-75 | The reference is the last power_counters event of the log, or empty |
| Outages.VerdictExact | state/journal.go:251-269 | no_reference exactly if the log has no counters or empty ones, hvac_power_loss exactly if a shared counter differs |

## Left out

- The serial driver, the MQTT client and the REST server: a script of reads, a map with lossy publishes and an all-or-nothing port stand for them.
- Decoders.Decoder.Next: for a reader that fails and then recovers only the byte count is promised, because an error makes the source slide a byte off an incomplete frame, so what it delivers then depends on when errors come; and the reader's script is finite.
- Schedulers.Scheduler.Send: a write reaches the wire whole or not at all, so a request cut short by an error is not on the modelled wire.
- Frames.Encode: more than 255 data bytes, on which the source panics, are excluded.
- Exporters.Exporter.PublishState: convergence supposes distinct zone names; where they collide the topics themselves do (Entities.ConfiguredFallbackCollides).
- Exporters.Exporter.PublishHealth: the seven calls of the source's closure are one loop over the health table.
- Journals.Journal.NoteFaults: the known faults need not equal the last read, because entries that drop out of a non-empty table, re-activations and falling counts are left alone by the source.
- Events.RecordRoundTrip: JSON is taken as lossless, so a fault's time keeps its zone and instant.
- Pipeline.Show: supposes that number formatting is never empty and that no other register is read as a system mode without text.
- Liveness.FlagsAreExact: supposes times that do not run backwards.
- Protocol.DecodeFrame: registers that are not zone-scoped go to a given decoder that yields system readings only; their table lookups are easy members.
- Totals.FailuresExact: what the read loop does between the folds is not a step of the model, for it leaves both totals alone; where it takes `mu` for its counters and statistics it is one more observer.
- Number formatting is a given function; `NaN` and the widths of Go's integers and floats are not modelled, and readings are reals.
- Journal write errors, the calendar arithmetic of fault slots, the sorting of active faults, discovery and availability payloads, capture, inspection, flags and packaging.
