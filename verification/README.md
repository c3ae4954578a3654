# Sensor Watch core, verified

A Dafny model of the protocols, codes, calendar arithmetic and watch faces of the Sensor Watch firmware, with proofs of
what they promise. `dafny verify dfyconfig.toml` checks everything.

- **Optical link** (`OpticalCodec`, `OpticalDecoder`, `OpticalBatch`, `OpticalRuns`, `OpticalAnswers`,
  `OpticalSession`, `OpticalSessionRuns`, over `Crc16`, `CrcBursts`, `CrcCheckValue` and `Buffers`). The decoder takes one
  byte at a time. It is proved to give, for every stream and every timing, what a parser of the whole stream gives.
  Replay and rate limits hold over whole runs and across the wrap of clock and sequence numbers; the session sets the
  clock only under its full policy, and before its deadline as long as the caller ends authorizations in time.
- **Transfers** (`Transfer`, `TransferReceiver`). A fixed frame codec and the receiver that drives an atomic store,
  up to the end-to-end theorem: what was cut into chunks and sent is what is stored.
- **Calendar** (`Calendar`, `UnixTime`, `DayCounts`). One civil calendar, counted year by year and month by month. The
  closed forms of the repository are all proved equal to it, and the conversions to invert each other. Unix time is
  "Seconds Since the Epoch", section 4.16 of the POSIX.1-2017 Base Definitions.
- **Scheduler and log** (`BackgroundTasks`, `EventLog`, over `Rings`).
- **Codes** (`Ecc`, `Crc16`, `Uf2`). The SECDED (39,32) code has distance four; UF2 files follow the "File format"
  section of Microsoft's UF2 specification.
- **Faces** (`Blackjack`, `BlackjackPlay`, `Interval`, `BabyKicks`, `EndlessRunner`, `EndlessRunnerPlay`, `Debounce`).
  Invariants over every run of events with any random numbers.

## How the model is built

Objects the firmware updates in place are classes. Each method is proved to do what a function on values says (`Abs()`
of the new state equals the function of the old), and the theorems are about those functions, over sequences of
events. Loops of the source are loops.

- Bytes and machine words are integers of their range. Wrap-around and truncation are written out, as in a build
  without overflow checks. `Words.TruncDiv` and `Words.TruncMod` are Rust's signed division.
- Where single bits matter (CRC, ECC, obstacle patterns) a word is a sequence of bits. Masks, shifts and ors of disjoint
  fields of a register are arithmetic. The CRC comparison is that of its two stored bytes.
- The authentication hooks are arbitrary functions. Clocks, button levels, random numbers and what the store or the clock
  driver grants are arbitrary arguments.
- The payload of a frame is the used part of the fixed array; what lies behind it is not part of a frame's value.
- `TransferReceiver.AtomicStore` is the contract the receiver relies on: a failed operation has no effect, and bytes of an
  open object that were not written are absent.
- `Debounce` takes the press thresholds as parameters; `types.rs`, which defines them, is not part of this model.

## Where code and documentation differ

The model follows the code.

- `core/src/optical.rs:569-570` says acknowledgements need an authorized frame. Frames other than time syncs are
  acknowledged without any authorization (lines 589-623), and `OpticalSession.HandleJustified` states so.
- `core/src/optical.rs:486-487` promises authorization only until its deadline. An expired deadline is kept (lines
  510-518) and compared modulo 2^32 (603-609), so it counts as ahead again 2^31 ms later
  (`OpticalSessionRuns.AuthorizationReturns`). `OpticalSessionRuns.SetsExactly` says when the clock is set, and
  `OpticalSessionRuns.RtcBeforeDeadline` what a caller must do to have it set only before the deadline.
- `core/src/optical.rs:67-68` calls the freshness stamp UTC seconds; `service` compares it with the seconds of its
  32-bit millisecond clock, for which every present UTC time is stale (`OpticalSession.FreshStamps`). The date that is
  written is checked for validity only.
- A sequence number exactly half a turn ahead is accepted (line 398), so a refused frame can return after one other frame
  (`OpticalRuns.HalfTurnTwiceRecurs`).
- The duty cycle is counted in windows of the wrapping clock; a decoder left idle with a full first window can refuse a
  frame 49 days later (`OpticalAnswers.FullAcrossWrap`).
- The byte that ends a gap of more than 100 ms, modulo 2^32 ms (`OpticalBatch.LateExactly`), is consumed by
  the timeout even between frames (lines 341-347), which is why `OpticalBatch.Parse` leaves it out.
- The commit guard of `core/src/transfer.rs:294-297` compares the frame's offset, so a commit can come too early:
  `TransferReceiver.CommitComplete` says exactly when it does not, `TransferReceiver.IncompleteCommit` gives a case.
- The transfer CRC is stored low byte first, which leaves exactly one undetected change of two adjacent bytes
  (`Transfer.BurstAtSeam`).
- `core/src/ecc.rs:26-28` describes a layout with the data first; the code interleaves data and parity (lines 31-41). The
  decoder answers a double error like a clean word (`Ecc.DoubleErrorLooksClean`).
- The scheduler's every-fourth-year rule is the calendar only until February 2100 (`DayCounts.TimestampIsUnix`), and a
  target in year 0 is not due in year 63, however old
  (`BackgroundTasks.MissedInLastYear`, `BackgroundTasks.DueExactly`).
- The weekday formula has no century correction (`DayCounts.WeekdayIsUnixDay`, `DayCounts.WeekdayOff`).
- `is_empty` of `src/movement/interval.rs:82-92` adds up bytes; a timer whose fields sum to 256 does not start
  (`Interval.EmptyExactly`, `Interval.FullByteIsEmpty`).

## Model

| member | source | states |
|---|---|---|
| OpticalCodec.Encode | core/src/optical.rs:216-251 | Writes exactly the frame bytes over the front of the output and leaves the rest; each refusal has its own error, happens exactly when the size or the tag rule calls for it, and writes nothing. |
| OpticalCodec.WriteFrame | core/src/optical.rs:233-250 | Header, payload, tag and the big-endian CRC over them, in place, nothing else touched. |
| OpticalCodec.WriteHeader | core/src/optical.rs:233-238 | Preamble, version, command, length and big-endian sequence number in the first nine bytes. |
| Buffers.Append | core/src/optical.rs:233-250 | Copying bytes behind those already written leaves the front and the rest of the array as they were. |
| OpticalCodec.FrameLayout | core/src/optical.rs:233-250 | Where every field of an encoded frame lies, and that the last two bytes are the CRC of all before them. |
| OpticalCodec.DecodeEncode | core/src/optical.rs:253-312 | Decoding an encoded frame gives that frame, or the authentication error exactly when a tag is present and the hook refuses it. |
| OpticalCodec.EncodeDecode | core/src/optical.rs:253-312 | Whatever the decoder accepts is byte for byte the encoding of what it returns, with the tag the hook verified. |
| OpticalCodec.DecodeAccepts | core/src/optical.rs:253-312 | The decoder returns a frame if and only if the bytes are its encoding under some permitted and verified tag. |
| OpticalCodec.RefusedAs | core/src/optical.rs:253-312 | Which error refused bytes get, in terms of the bytes and of the CRC of all of them being zero. |
| OpticalCodec.ResidueExactly | core/src/optical.rs:269-272 | The last two bytes are the CRC of the others if and only if the CRC of all is zero. |
| OpticalCodec.BurstRejected | core/src/optical.rs:253-272 | Changing any two adjacent bytes of an accepted frame, header and CRC included, makes it rejected under every hook. |
| OpticalCodec.BitBurstRejected | core/src/optical.rs:253-272 | So does changing any bits among sixteen consecutive ones, wherever they begin, across up to three bytes. |
| OpticalCodec.StoredCrcDetects | core/src/optical.rs:630-643 | Two messages that carry their own CRC behind them, high byte first, never differ in one adjacent pair only, not even across the seam. |
| Crc16.Compute | core/src/optical.rs:630-643 | The bitwise loop computes the register after absorbing all bytes from 0xFFFF. |
| Crc16.AbsorbInjective | core/src/optical.rs:634-641 | For a fixed byte the register step is injective. |
| Crc16.CrcFromInjective | core/src/optical.rs:630-643 | For fixed bytes the whole CRC is injective in the starting register. |
| Crc16.PairInjective | core/src/optical.rs:634-641 | Two consecutive bytes are determined by the register before and after them. |
| Crc16.AdjacentPairDetected | core/src/optical.rs:630-643 | Messages that differ in at most one adjacent pair and have the same CRC are equal. |
| Crc16.LastByteDetected | core/src/optical.rs:630-643 | The low CRC byte alone tells every change of the last message byte. |
| Crc16.HighByteTellsLast | core/src/transfer.rs:322-334 | The high CRC byte alone misses exactly one difference of the last byte, 0x89, and then the low byte differs by 0xA1. |
| CrcBursts.CrcIsBitwise | core/src/optical.rs:630-643 | The CRC of bytes is that of their bits, most significant first. |
| CrcBursts.AbsorbAligned | core/src/optical.rs:634-641 | Up to sixteen bits act on the register as their exclusive or into its top, followed by as many shifts. |
| CrcBursts.BurstDetected | core/src/optical.rs:630-643 | Bit strings that differ in a burst of at most sixteen bits leave different registers. |
| CrcBursts.BytesBurstDetected | core/src/optical.rs:630-643 | So messages of the same CRC that differ in such a burst are equal. |
| CrcBursts.Residue | core/src/optical.rs:630-643 | A message followed by its CRC, high byte first, leaves the register at zero. |
| CrcCheckValue.CheckValue | core/src/optical.rs:630-643 | The CRC of the characters 123456789 is 0x29B1, the check value of the CRC-16 with this start and polynomial. |
| OpticalDecoder.Decoder.constructor | core/src/optical.rs:324-333 | A decoder starts idle, with no frame accepted and an empty duty-cycle window. |
| OpticalDecoder.Decoder.Accept | core/src/optical.rs:389-405 | The replay and duty-cycle rules: new window, accepted frame or error, in terms of the old window and last sequence; the buffer stays. |
| OpticalDecoder.Decoder.Receive | core/src/optical.rs:335-387 | One byte: the buffer, the clock, the guard and the result are those of the byte-step function, on every branch. |
| OpticalDecoder.Decoder.Finish | core/src/optical.rs:382-386 | A complete frame is decoded and then judged by sequence, and the buffer is emptied whatever the outcome. |
| OpticalDecoder.FeedConcat | core/src/optical.rs:335-387 | Feeding a stream in two parts is feeding it whole: state and results. |
| OpticalBatch.FindPair | core/src/optical.rs:348-364 | The position of the first adjacent preamble pair, or the length when there is none. |
| OpticalBatch.LateExactly | core/src/optical.rs:341-347 | A byte is late if and only if the true gap before it, modulo 2^32, exceeds 100 ms; so below 2^32 ms if and only if the gap does. |
| OpticalBatch.Noise | core/src/optical.rs:348-364 | Bytes without an adjacent preamble pair give no result and leave at most a final 0xA5 behind. |
| OpticalBatch.Filling | core/src/optical.rs:365-381 | After a preamble nothing is reported until the length byte completes or rejects the frame. |
| OpticalBatch.CoreRefinesBatch | core/src/optical.rs:348-386 | Without gaps, one byte at a time equals the batch parser: find a preamble, cut by length, decode, judge, go on behind it. |
| OpticalBatch.DecoderRefinesParser | core/src/optical.rs:335-387 | For every stream with any timing, the results at every byte and the final guard equal those of parsing the stream cut at its late bytes, each of which is consumed by a timeout. |
| OpticalBatch.FrameThroughNoise | core/src/optical.rs:335-387 | A verified frame behind any noise free of the preamble pair reaches the sequence rules exactly as it was encoded, at its last byte. |
| OpticalRuns.AcceptedAdvance | core/src/optical.rs:396-404 | Over any run each accepted sequence number is 1 to 2^31 ahead of the one before, modulo 2^32. |
| OpticalRuns.SequenceRecurs | core/src/optical.rs:396-404 | Two accepted frames carry the same number if and only if the advance between them is a multiple of 2^32; hence never while it is below 2^32. |
| OpticalRuns.HalfTurnTwiceRecurs | core/src/optical.rs:396-404 | A frame refused as a replay is accepted again after one frame exactly half a turn ahead. |
| OpticalRuns.WindowBound | core/src/optical.rs:390-395 | No run ever has more than four frames in one window. |
| OpticalRuns.DutyCycle | core/src/optical.rs:389-405 | On a clock that does not go back, less than 1000 ms of any run holds at most eight accepted frames, also where the 32-bit clock wraps. |
| OpticalAnswers.OfferJudged | core/src/optical.rs:368-386 | The sequence rules see exactly the frames that a byte in time completes and that decode; no other byte touches or is answered by them. |
| OpticalAnswers.AnswersExactly | core/src/optical.rs:389-405 | In every run on a clock that does not go back, from the frames accepted before and true times alone: a frame offered is answered DutyCycle if and only if four were accepted since its window opened, else Replay if and only if it is not ahead of the last, else it is accepted. |
| OpticalAnswers.AcceptsAgain | core/src/optical.rs:389-405 | While the clock has not wrapped a frame is refused for the duty cycle only if four were accepted less than 1000 ms before it, as a replay only if it is not ahead of the last accepted, and else accepted. |
| OpticalAnswers.FullAcrossWrap | core/src/optical.rs:390-395 | Across a wrap that fails: a window filled in the first second refuses a frame offered 49 days later. |
| OpticalSession.OpticalSession.constructor | core/src/optical.rs:464-472 | A new session is idle, without a deadline or pending acknowledgement, with a fresh decoder. |
| OpticalSession.OpticalSession.AuthorizeUntil | core/src/optical.rs:488-490 | Only the deadline changes. |
| OpticalSession.OpticalSession.ClearAuthorization | core/src/optical.rs:492-497 | The deadline goes, and an authorized session becomes expired. |
| OpticalSession.OpticalSession.Reset | core/src/optical.rs:503-508 | The session is as new under the same policy. |
| OpticalSession.OpticalSession.ExpireAt | core/src/optical.rs:510-518 | Past the deadline, within half a clock turn, the session is expired and its acknowledgement dropped; otherwise nothing happens. |
| OpticalSession.OpticalSession.HandleFrame | core/src/optical.rs:586-623 | What an accepted frame does to the session and to the outside, in order, and the answer. |
| OpticalSession.OpticalSession.ReceiveByte | core/src/optical.rs:580-623 | One byte of a call: the session, the effects in order and the answer, if the byte gives one. |
| OpticalSession.OpticalSession.ServiceIo | core/src/optical.rs:571-627 | One call has exactly the effects and the answer of the service function, takes as many waiting bytes as it says, at most 64, and leaves all others waiting. |
| OpticalSession.ServiceTakes | core/src/optical.rs:579-626 | A call without an answer takes 64 bytes or all there are; one with an answer takes nothing behind the byte that gave it, and nothing before that byte gives one. |
| OpticalSession.PackedIsRtcDate | core/src/optical.rs:148-173 | The field check on the packed register accepts exactly the registers of valid dates from 2020 to 2083. |
| OpticalSession.HandleJustified | core/src/optical.rs:586-623 | Which effects an accepted frame has: the clock is set if and only if all conditions hold, and the acknowledgement goes out if and only if it was not a time sync or all of them held. |
| OpticalSession.HandleAnswers | core/src/optical.rs:586-623 | The answer to an accepted frame: success if and only if it is acknowledged, each error if and only if its own condition fails first, and what state and pending acknowledgement are left. |
| OpticalSession.PollIsFeed | core/src/optical.rs:579-626 | A call feeds its bytes to the decoder up to the first that is reported, answers a decoding error as it is, and accepts the frame reported. |
| OpticalSession.PushReceived | core/src/optical.rs:335-387 | The decoder accepts a byte only as the last of the latest bytes it was fed, which together decode to the frame and, for a time sync, carry the tag that the hook verified. |
| OpticalSession.PollJustified | core/src/optical.rs:579-626 | A call without an accepted frame has no effect and leaves the acknowledgement; one with a frame has its justified effects and its exact answer, and the frame is what the latest bytes taken decode to, with a sequence number ahead of the last. |
| OpticalSession.FrameServed | core/src/optical.rs:571-627 | A verified frame that waits whole is accepted by the call that serves it whenever the decoder is idle and the sequence rules accept it, and then has its justified effects. |
| OpticalSession.FreshStamps | core/src/optical.rs:105-111 | A stamp can be fresh at some reading of the clock if and only if it is at most 4295267; no UTC second from 2020 on is. |
| OpticalSessionRuns.RunAllowed | core/src/optical.rs:571-627 | In any run of authorizations, withdrawals, resets, expiries and services, at true times, each accepted frame is what the end of the bytes taken since the last reset, up to its own call, decodes to under that call's hook; it had exactly the effects and the answer that the policy and the authorization then in force call for; and these effects are, in order, all effects of the run. |
| OpticalSessionRuns.InForceExactly | core/src/optical.rs:488-508 | An authorization is in force if and only if nothing was authorized, withdrawn or reset after it; time alone never ends it. |
| OpticalSessionRuns.PassedExactly | core/src/optical.rs:510-518 | The deadline test in true times: granted for less than half a clock turn, a deadline counts as ahead if and only if it is, or if the time since it is at least 2^31 modulo 2^32. |
| OpticalSessionRuns.SetsExactly | core/src/optical.rs:596-619 | In any run on a clock that does not go back, with authorizations for less than half a turn, an accepted frame sets the clock if and only if it is an eligible time sync under a full policy, an authorization is in force, and T < D or (T - D) mod 2^32 is at least 2^31. |
| OpticalSessionRuns.RtcOnlyWhenAllowed | core/src/optical.rs:596-619 | Any setting of the clock among the effects of a run is of a valid date, from received bytes whose own tag the hook verified and whose stamp is within 300 s of the session clock, with all four policy flags set and an authorization not replaced, withdrawn or reset since, whose deadline is ahead modulo 2^32. |
| OpticalSessionRuns.RtcBeforeDeadline | core/src/optical.rs:486-490 | When each authorization is ended before half a turn has passed since its deadline, every setting of the clock comes at a true time before the deadline of the authorization in force. |
| OpticalSessionRuns.AuthorizationReturns | core/src/optical.rs:510-518 | Without that it does not: a time sync refused 2^31 - 1 ms after a deadline sets the clock one millisecond later, in one run from a new session. |
| OpticalSessionRuns.ReceiveOnlyNeverApplies | core/src/optical.rs:474-476 | No effect of any run of a receive-only session sets the clock. |
| OpticalSessionRuns.RunAdvances | core/src/optical.rs:571-627 | In any run two successive frames with no reset between them, hence those applied, advance in sequence. |
| OpticalSessionRuns.AckExactly | core/src/optical.rs:499-518 | The pending acknowledgement is that of the last frame acknowledged, unless the session was reset or a deadline was seen to pass since. |
| OpticalSessionRuns.QuietStates | core/src/optical.rs:488-518 | What authorizing, withdrawing, resetting and expiring do to the state, in any run and in true times. |
| Transfer.NewFrame | core/src/transfer.rs:92-123 | A frame is made exactly when payload, total length, offset and their sum are in bounds, and it carries the arguments. |
| Transfer.PutHeader | core/src/transfer.rs:125-137 | The 26 header bytes: magic, version, command, object, zero, and the little-endian numbers, then the tag; nothing else touched. |
| Transfer.Encode | core/src/transfer.rs:125-143 | A fresh 256-byte array holds header, payload, zero padding and the CRC, low byte first. |
| Transfer.DecodeEncoded | core/src/transfer.rs:145-188 | Decoding an encoded frame gives the frame back, for every well-formed frame. |
| Transfer.DecodeAccepts | core/src/transfer.rs:145-188 | A frame is decoded if and only if it is well-formed and the bytes have its header, its payload and the CRC of their body; the padding does not matter. |
| Transfer.RefusedAs | core/src/transfer.rs:145-188 | Which error refused bytes get, in the order magic, version, CRC, command, object. |
| Transfer.LimitsAre | core/src/transfer.rs:15-54 | The limits of frames and objects in bytes. |
| Transfer.BurstRejected | core/src/transfer.rs:145-158 | Two adjacent changed bytes, both before index 254 or both in the CRC field, make an accepted frame rejected. |
| Transfer.BitBurstRejected | core/src/transfer.rs:145-158 | Changing any bits among sixteen consecutive ones of the body makes an accepted frame rejected. |
| Transfer.BurstAtSeam | core/src/transfer.rs:145-158 | At the remaining pair, 253 and 254, a change goes unnoticed if and only if it is exactly 0x89 in the first byte and 0xA1 in the second. |
| TransferReceiver.TransferReceiver.constructor | core/src/transfer.rs:248-257 | A receiver starts idle over its store. |
| TransferReceiver.TransferReceiver.ReceiveFrame | core/src/transfer.rs:259-319 | One frame: receiver fields, store and answer are those of the step function on every branch, whatever the store grants. |
| TransferReceiver.AtomicStore.BeginObject | core/src/transfer.rs:221 | A granted begin opens an object of the stated length with nothing written; a refused one changes nothing. |
| TransferReceiver.AtomicStore.WriteChunk | core/src/transfer.rs:222 | A granted write overlays the bytes at their offset; a refused one changes nothing. |
| TransferReceiver.AtomicStore.CommitObject | core/src/transfer.rs:224 | A granted commit makes the open object durable; a refused one changes nothing. |
| TransferReceiver.ReceiveConsistent | core/src/transfer.rs:259-319 | After every frame the store holds exactly the bytes below the offset of the object the receiver is at, and nothing open when it is idle. |
| TransferReceiver.CommitComplete | core/src/transfer.rs:294-308 | A commit makes exactly what was staged durable, and that is a complete object if and only if the offset had reached the total length. |
| TransferReceiver.DurableOnlyByCommit | core/src/transfer.rs:259-319 | Durable objects change only by an authenticated commit that succeeds. |
| TransferReceiver.RejectedUnchanged | core/src/transfer.rs:259-319 | A frame answered with an error, neither an abort nor a refusal of the store, changes neither receiver nor store. |
| TransferReceiver.ReceiveHolds | core/src/transfer.rs:259-319 | Every frame moves receiver and store as the ledger of authenticated, continuing and granted writes and commits moves, and is answered as it calls for. |
| TransferReceiver.AcceptedExactly | core/src/transfer.rs:259-319 | In every run a frame is accepted if and only if the hook passes it, its number is the count of writes since begin, its offset the bytes written, its object and length those begun, and the store grants it; each error has its own condition. |
| TransferReceiver.RunSourced | core/src/transfer.rs:259-319 | In every run each durable object the run made holds exactly the payloads of some deliveries, in order, every one an authenticated write for it; the others are as they were. |
| TransferReceiver.RunHolds | core/src/transfer.rs:259-319 | In every run of frames and grants the object in progress holds exactly the payloads accepted since it was begun, and each durable object the run made exactly those accepted up to its commit. |
| TransferReceiver.FilledComplete | core/src/transfer.rs:294-308 | Such an object is complete if and only if as much was written as its length, and then it is what was written. |
| TransferReceiver.NextFrame | core/src/transfer.rs:259-319 | The next frame of a transfer is accepted and moves it by one chunk; the commit makes the content durable and the receiver idle. |
| TransferReceiver.EndToEnd | core/src/transfer.rs:92-319 | Any non-empty content cut in any way into chunks of 1 to 228 bytes, sent with the commit, is stored exactly and leaves the receiver as at the start, with any rejected frames in between. |
| TransferReceiver.IncompleteCommit | core/src/transfer.rs:294-297 | Two bytes of a three-byte object can be committed: the guard looks at the frame's offset, not at the receiver's. |
| Calendar.DaysBeforeYearClosed | core/src/utility.rs:85-136 | The year-by-year count of days has a closed form, for every year before and after 1970. |
| Calendar.WalkDay | core/src/utility.rs:204-279 | Walking the calendar day by day from any month arrives at the date with that day count. |
| Calendar.OrderIsTime | core/src/safety.rs:54-72 | Valid dates are ordered, field by field, exactly as their Unix times, and equal exactly when those are. |
| Calendar.DateOf | core/src/utility.rs:204-279 | The date of an instant: valid with that Unix time from 2020 to 2083, the zero date otherwise. |
| UnixTime.YearToSecs | core/src/utility.rs:85-136 | The closed form, with its 32-bit truncations, gives the seconds to the first of January and the leap rule of the civil calendar. |
| UnixTime.MonthToSecsIsCivil | core/src/utility.rs:139-158 | The month table is the count of days month by month, in leap years too. |
| UnixTime.ConvertToUnixTime | core/src/utility.rs:161-184 | The Unix time of the civil date less the signed offset, modulo 2^32. |
| UnixTime.SplitDays | core/src/utility.rs:221-249 | The divisions by 400, 100, 4 and 1 years with their corrections give the years since March 2000 and the days into that year. |
| UnixTime.DateTimeFromUnixTime | core/src/utility.rs:204-279 | The date of the instant after the signed offset, and the zero date outside 2020 to 2083. |
| UnixTime.DateRoundTrip | core/src/utility.rs:161-279 | Date to seconds to date is the identity if and only if the seconds fit 32 unsigned bits, for every date and every signed offset. |
| UnixTime.BoundedOffsetRoundTrip | core/src/utility.rs:161-279 | Hence it is for all offsets of up to eight years. |
| UnixTime.SecondsRoundTrip | core/src/utility.rs:161-279 | A date comes out if and only if the local instant is in 2020 to 2083, and then converting back gives the same seconds. |
| UnixTime.ZonePathIndependent | core/src/utility.rs:281-288 | Converting through an intermediate zone equals converting directly while the intermediate is a date. |
| UnixTime.ZoneShifts | core/src/utility.rs:281-288 | The converted date has the time of the date in UTC plus the destination's offset, if a date of 2020 to 2083 has it, and is the zero date otherwise. |
| UnixTime.DateTimeConvertZone | core/src/utility.rs:281-288 | The method computes just that. |
| DayCounts.ComputeTimestamp | core/src/background_tasks.rs:30-48 | The loops compute the scheduler's count of seconds. |
| DayCounts.TimestampIsUnix | core/src/background_tasks.rs:30-48 | The scheduler's count is the Unix time from 2020 on if and only if the date is before March 2100; so for every RTC date. |
| DayCounts.JulianDayIsUnixDay | src/movement/days_since.rs:26-32 | The truncating Julian day formula is the civil day count plus 2440588, for every date of every 16-bit year. |
| DayCounts.WeekdayIsUnixDay | core/src/utility.rs:27-36 | For every date the weekday is the civil day count plus three, modulo seven, plus one, if and only if the leap days the formula miscounts are a multiple of seven and its sum is not negative, or a multiple of seven; so always from March 2000 to February 2100. |
| DayCounts.WeekdayOff | core/src/utility.rs:27-36 | The first of March 2100 comes out a day late. |
| DayCounts.RegRoundTrip | core/src/datetime.rs:30-50 | Packing and unpacking a date whose fields fit gives it back. |
| DayCounts.RegSurjective | core/src/datetime.rs:30-50 | Every register is the packing of what it unpacks to. |
| DayCounts.RegOrder | core/src/datetime.rs:30-37 | Packed registers of valid dates are ordered exactly as time. |
| BackgroundTasks.BackgroundTaskRegistry.constructor | core/src/background_tasks.rs:56-62 | All 111 faces start without a task. |
| BackgroundTasks.BackgroundTaskRegistry.Schedule | core/src/background_tasks.rs:71-86 | Sets one face's task when face, date and order allow it, and otherwise changes nothing. |
| BackgroundTasks.BackgroundTaskRegistry.Cancel | core/src/background_tasks.rs:88-92 | Clears one face's task, and ignores faces that do not exist. |
| BackgroundTasks.BackgroundTaskRegistry.PollDue | core/src/background_tasks.rs:95-103 | Returns and clears the first due face, and nothing when none is due. |
| BackgroundTasks.BackgroundTaskRegistry.Scheduled | core/src/background_tasks.rs:105-107 | The task of a face, and none for a face that does not exist. |
| BackgroundTasks.PollTakesFirst | core/src/background_tasks.rs:95-103 | A poll takes the head off the list of due faces and leaves the tasks in the future alone. |
| BackgroundTasks.DrainsDue | core/src/background_tasks.rs:95-103 | Polls at one instant return exactly the due faces in index order, then nothing; the tasks left are exactly those in the future. |
| BackgroundTasks.DeadlineIsNext | core/src/background_tasks.rs:17-28 | The deadline the model keeps for a task is the first time after scheduling at which the RTC shows its target. |
| BackgroundTasks.ClockShows | core/src/background_tasks.rs:17-28 | At every true time there is a valid RTC date that shows it. |
| BackgroundTasks.YearOfTimestamp | core/src/background_tasks.rs:30-48 | The last year of the 64-year cycle begins where the count of seconds says. |
| BackgroundTasks.SchedulesExactly | core/src/background_tasks.rs:71-86 | A schedule takes effect if and only if the face exists and the target is valid and later in the calendar, or in year 0 in the clock's last year. |
| DayCounts.TimestampOrder | core/src/background_tasks.rs:30-48 | Timestamps order all valid dates as the calendar does. |
| BackgroundTasks.NeverEarly | core/src/background_tasks.rs:71-103 | In any run on a clock that does not go back no face is returned before its deadline, across any number of RTC wraps. |
| BackgroundTasks.DueExactly | core/src/background_tasks.rs:17-28 | A task is due if and only if the RTC is not before its target and not in year 63 with the target in year 0; then its deadline has passed. |
| BackgroundTasks.DueOnTime | core/src/background_tasks.rs:71-103 | Polled up to the end of its deadline's cycle a task is due exactly when its deadline has passed, but for year 63 and a year-0 target. |
| BackgroundTasks.MissedInLastYear | core/src/background_tasks.rs:17-28 | The exception is real: a task for January 2020 polled in 2083 is not due, decades after its deadline. |
| BackgroundTasks.OncePerSchedule | core/src/background_tasks.rs:71-103 | Over any run the successful schedules of a face are exactly those returned, those cancelled, those replaced and the one pending: none is lost, none returned twice. |
| Ecc.PlaceData | core/src/ecc.rs:31-41 | Data bits go, in order, to the positions from 1 to 38 that are not powers of two; the others stay zero. |
| Ecc.Encode | core/src/ecc.rs:30-61 | The result is a codeword: the data at its places, all six checks and the overall parity even, nothing above bit 39. |
| Ecc.Parity64 | core/src/ecc.rs:20-22 | The parity of all 64 bits. |
| Ecc.ExtractData | core/src/ecc.rs:105-117 | Reads back the data positions in order. |
| Ecc.Decode | core/src/ecc.rs:68-102 | The nested loops give the decoder's answer in terms of syndrome and parity, on all four branches and for all 64-bit words. |
| Ecc.SyndromeIsPositionsXor | core/src/ecc.rs:70-80 | The syndrome is the exclusive or of the 1-based positions of the set bits. |
| Ecc.CorrectedMeansOdd | core/src/ecc.rs:82-102 | A correction is reported if and only if the number of set bits is odd. |
| Ecc.CleanDecodes | core/src/ecc.rs:68-102 | A codeword decodes to its data, without a correction. |
| Ecc.SingleErrorCorrected | core/src/ecc.rs:68-102 | Any one flipped bit of the 39 is corrected, and reported. |
| Ecc.DoubleErrorDetected | core/src/ecc.rs:68-102 | Any two flipped bits never report a correction. |
| Ecc.DoubleErrorLooksClean | core/src/ecc.rs:64-102 | The answer to a double error is the same as to the codeword of the data read, so a caller cannot tell them apart. |
| Ecc.DoubleErrorVisible | core/src/ecc.rs:68-102 | Any two flipped bits leave a syndrome that is not zero. |
| Ecc.DistanceFour | core/src/ecc.rs:30-61 | One to three flipped bits never turn a codeword into a codeword, of the same or of other data. |
| Ecc.CodewordUnique | core/src/ecc.rs:30-61 | Each data word has one codeword. |
| Blackjack.BlackjackFace.StackDeck | src/movement/blackjack.rs:102-108 | The nested loops fill the deck with four of each rank in order. |
| Blackjack.BlackjackFace.ShuffleDeck | src/movement/blackjack.rs:110-118 | The swaps are the shuffle for the numbers drawn, and 51 numbers are drawn. |
| Blackjack.BlackjackFace.GetNextCard | src/movement/blackjack.rs:125-132 | The next card, from a new shuffle when the deck is used up. |
| Blackjack.BlackjackFace.GiveCard | src/movement/blackjack.rs:155-165 | A hand gets the next card and its score. |
| Blackjack.BlackjackFace.BeginPlaying | src/movement/blackjack.rs:352-374 | A round begins with a shuffled deck, two cards for the player and one for the dealer. |
| Blackjack.BlackjackFace.PerformHit | src/movement/blackjack.rs:382-395 | Hitting on 21 stands; else one card, and a bust above 21. |
| Blackjack.BlackjackFace.SeeIfDealerHits | src/movement/blackjack.rs:397-424 | Above 16 the dealer compares; else it takes a card and may have lost or won by it. |
| Blackjack.BlackjackFace.HandleButton | src/movement/blackjack.rs:426-442 | Both buttons in every state. |
| Blackjack.ShuffleKeeps | src/movement/blackjack.rs:110-118 | Whatever is drawn, shuffling is a permutation. |
| Blackjack.StackedIsDeck | src/movement/blackjack.rs:102-108 | The stacked deck is four of each rank from 2 to ace. |
| Blackjack.ReduceAcesBest | src/movement/blackjack.rs:142-147 | Reducing aces stops at the largest number of high aces that stays within 21. |
| Blackjack.GiveBest | src/movement/blackjack.rs:142-165 | After every card the score is the best total of the hand, and the total with all aces low has grown. |
| Blackjack.LowestHand | src/movement/blackjack.rs:24 | A hand from one deck is worth at least what its aces and twos allow, so eleven cards reach 21. |
| Blackjack.RoomForCard | src/movement/blackjack.rs:155-165 | A hand that may still hit has at most ten cards. |
| Blackjack.BeginInv | src/movement/blackjack.rs:352-374 | Beginning a round, from any state with a full deck, establishes the round invariant. |
| Blackjack.DealerTurnInv | src/movement/blackjack.rs:397-424 | A dealer turn keeps it, and one that does not end the round makes the hard total grow. |
| Blackjack.StepInv | src/movement/blackjack.rs:426-505 | Every event keeps: the deck a full deck, the dealt cards its front, scores best, hands of at most eleven cards. |
| Blackjack.RunInv | src/movement/blackjack.rs:426-505 | So in every run after activation with any random numbers; no round deals more than 22 cards, so none uses up the deck. |
| Blackjack.DealerFinishes | src/movement/blackjack.rs:397-424 | Dealer play ends within a bounded number of ticks, with the verdict the two scores call for. |
| BlackjackPlay.BestIsTotal | src/movement/blackjack.rs:142-165 | The score of a hand is its total with one ace high if that does not exceed 21, else with all low. |
| BlackjackPlay.RoundBegins | src/movement/blackjack.rs:352-374 | The player gets the first two cards of the shuffled deck, the dealer the third. |
| BlackjackPlay.PlayerTurn | src/movement/blackjack.rs:376-395 | Standing ends the player's turn; a hit takes the next card unless the total is 21, and is bust if and only if the new total exceeds 21. |
| BlackjackPlay.DealerStep | src/movement/blackjack.rs:397-424 | Above 16 the dealer stands and the totals decide; up to 16 it takes the next card, and play ends if and only if its total then exceeds the player's. |
| BlackjackPlay.OtherEvents | src/movement/blackjack.rs:426-490 | Every other event of every state. |
| BlackjackPlay.RunInTurn | src/movement/blackjack.rs:426-505 | In every run the cards of player and dealer are the deck from the top, in turn. |
| BlackjackPlay.DealerDraws | src/movement/blackjack.rs:397-424 | The dealer draws from the deck while its total is at most 16 and not above the player's, and not one card more. |
| BlackjackPlay.AnyOrder | src/movement/blackjack.rs:110-118 | Every order of the deck is the outcome of some draws below 255. |
| Interval.IntervalFace.SetNextTimestamp | src/movement/interval.rs:401-414 | The target moves by the length of the phase, at least one second. |
| Interval.IntervalFace.AlarmLongPress | src/movement/interval.rs:592-622 | Start, abort or resume, by state; an empty timer does not start and selects the first. |
| Interval.IntervalFace.AlarmUp | src/movement/interval.rs:562-583 | Select the next timer, pause or resume, by state. |
| Interval.IntervalFace.BackgroundTask | src/movement/interval.rs:626-688 | The phase transition, with both round counters. |
| Interval.EmptyExactly | src/movement/interval.rs:82-92 | An edited timer counts as empty if and only if its fields add up to 0 or to 256. |
| Interval.FullByteIsEmpty | src/movement/interval.rs:82-92 | There is an edited timer with work to do that counts as empty. |
| Interval.PhaseEnds | src/movement/interval.rs:626-680 | The end of a phase moves to the next phase of the plan, from every position. |
| Interval.StartsOnTrack | src/movement/interval.rs:599-613 | A started timer has the whole plan before it: warmup, blocks of work separated by breaks (without work: breaks alone), cooldown. Zero work rounds are 256. |
| Interval.FireFollows | src/movement/interval.rs:626-688 | The next phase is due one phase length after the one that ended. |
| Interval.ResumeFollows | src/movement/interval.rs:430-437 | Resuming moves the end of the phase by the length of the pause. |
| Interval.RunFollows | src/movement/interval.rs:401-437 | In any run of phase ends, pauses and resumes of a timer that ends, the timer is where its plan says, and due at start plus phases plus the time between each pause and its resumption, counted from the events alone. |
| Interval.PlanTotal | src/movement/interval.rs:626-688 | The plan lasts warmup, F blocks of W works, F-1 breaks and cooldown; without work, F breaks. |
| Interval.TimerEnds | src/movement/interval.rs:626-688 | The timer stops exactly when the plan is used up, and its last target is start, plan and the time from each pause to its resumption together. |
| Interval.EndlessRun | src/movement/interval.rs:626-688 | A timer with zero full rounds and something to repeat never stops: after any run it is in the phase that the endless repetition of works and break gives for the number of phases ended, due at start plus those phases plus the time paused; the cooldown never comes. |
| BabyKicks.BabyKicksFace.ElapsedMinutes | src/movement/baby_kicks.rs:136-142 | Minutes since the start, or 255 when not started. |
| BabyKicks.BabyKicksFace.IncrementCounts | src/movement/baby_kicks.rs:188-203 | One movement: ring, counts and stretch start. |
| BabyKicks.BabyKicksFace.SuccessfullyUndo | src/movement/baby_kicks.rs:207-232 | One undo, or nothing when the slot holds the sentinel. |
| BabyKicks.BabyKicksFace.Movement | src/movement/baby_kicks.rs:311-332 | Start, count or refuse after the timeout. |
| BabyKicks.BabyKicksFace.TakeBack | src/movement/baby_kicks.rs:333-349 | Undo while the counter is active. |
| BabyKicks.BabyKicksFace.StartOver | src/movement/baby_kicks.rs:350-365 | Reset everything, ring included, once started. |
| BabyKicks.RunRefines | src/movement/baby_kicks.rs:188-232 | In every run the ring is the stack of the last ten counts, and the face is in the state of a diary that undoes exactly. |
| BabyKicks.StretchesBounded | src/movement/baby_kicks.rs:188-203 | While time does not go back there are at most 1 + elapsed/61 stretches, never more than 99, and no stored count is the sentinel. |
| BabyKicks.TakesBackExactly | src/movement/baby_kicks.rs:205-232 | Undo succeeds if and only if the counter is active and has a movement to undo, and then restores both counts. |
| BabyKicks.UndoesUpToTen | src/movement/baby_kicks.rs:187-232 | In any run on a clock that does not go back, up to ten movements counted and then taken back one by one before the timeout leave stretch and movement count as before the first. |
| EndlessRunner.GetRandomLegal | src/movement/endless_runner.rs:160-191 | The shifting loops give the old grid, then as many zeros as the last obstacle still needs, then the spread random bits. |
| EndlessRunner.SpreadLegal | src/movement/endless_runner.rs:171-182 | Spread bits keep the zeros between any two obstacles and before the first. |
| EndlessRunner.LegalSeam | src/movement/endless_runner.rs:184-189 | The shift at the seam is enough between old and new obstacles. |
| EndlessRunner.DrawnLegal | src/movement/endless_runner.rs:160-191 | The top twelve bits stay, and the whole is legal if and only if they were, for every random word. |
| EndlessRunner.EndlessRunnerFace.ShowObstacles | src/movement/endless_runner.rs:471-488 | Shows the grid, shifts it, and draws anew when the pattern is used up. |
| EndlessRunner.EndlessRunnerFace.Ball | src/movement/endless_runner.rs:498-535 | One frame of the ball, with fuel or without. |
| EndlessRunner.EndlessRunnerFace.Update | src/movement/endless_runner.rs:490-541 | One tick of a game, lost when the ball is down on an obstacle. |
| EndlessRunner.EndlessRunnerFace.HandleEvent | src/movement/endless_runner.rs:641-684 | Every event on every screen. |
| EndlessRunner.StepInv | src/movement/endless_runner.rs:471-488 | Every event keeps the pattern legal and the places shifted out clear. |
| EndlessRunner.PatternsLegal | src/movement/endless_runner.rs:471-488 | So in every run each pattern of a game without fuel is legal for its difficulty, and drawing overwrites zeros only. |
| EndlessRunner.CanAlwaysBePlayed | src/movement/endless_runner.rs:490-541 | A player who jumps at each obstacle never loses, whatever is drawn, at any difficulty without fuel. |
| EndlessRunner.BeginsClear | src/movement/endless_runner.rs:340-366 | Every such game begins in a state from which that holds. |
| EndlessRunnerPlay.LosesExactly | src/movement/endless_runner.rs:490-541 | A tick loses the game if and only if the ball is down after it and an obstacle is at one of its two places. |
| EndlessRunnerPlay.GroundLoses | src/movement/endless_runner.rs:498-537 | A ball on the ground stays there, so the first obstacle not jumped loses. |
| EndlessRunnerPlay.AirTime | src/movement/endless_runner.rs:511-534 | A jump without fuel lasts two ticks, on the two easiest levels three, and then the ball is down. |
| EndlessRunnerPlay.FuelFlight | src/movement/endless_runner.rs:513-523 | With fuel and the button held the ball stays up as long as there is fuel. |
| EndlessRunnerPlay.FuelExactly | src/movement/endless_runner.rs:499-523 | Letting go ends the flight at once; the ground gives back three units a tick, up to thirty, but none in the last mode once the fuel is gone. |
| EndlessRunnerPlay.ObstaclesCome | src/movement/endless_runner.rs:160-191 | Random bits whose first one is not at the very ends bring an obstacle, whatever was on the grid. |
| EndlessRunnerPlay.NothingLost | src/movement/endless_runner.rs:471-488 | Drawing anew loses no obstacle: every one on its way is one place nearer after a tick. |
| EndlessRunnerPlay.GameBegins | src/movement/endless_runner.rs:296-366 | What a game starts with, on every difficulty: the ball on the ground, no obstacle shown, three units of fuel in a fuel game, one tick of wait without sound. |
| EndlessRunnerPlay.NextDifficulty | src/movement/endless_runner.rs:268-284 | A long press on the title goes on to the next of six difficulties, the last two of which are fuel games. |
| EndlessRunnerPlay.PressJumps | src/movement/endless_runner.rs:667-676 | A press jumps if and only if a game runs, the ball is on the ground, and a fuel game has fuel. |
| EndlessRunnerPlay.BetweenGames | src/movement/endless_runner.rs:641-684 | A lost game goes back to the title, a running one ignores buttons let go and long presses, and sound is switched between games only. |
| Debounce.Button.Sample | src/movement/debounce.rs:54-101 | One reading: the new state and the event, if any. |
| Debounce.Button.FastTick | src/movement/debounce.rs:107-132 | One tick: the long presses. |
| Debounce.ChangeExactly | src/movement/debounce.rs:63-79 | A change is reported exactly when the last four readings all oppose the stable level, whatever came before, and it is a press exactly when they are high. |
| Debounce.LongPressExactly | src/movement/debounce.rs:81-132 | After any history a tick reports a long press if and only if the button is down, for the threshold since the reading that pressed it, and none was reported since; likewise the really long press; and a release is long if and only if a long press was. |
| Debounce.EventsArePresses | src/movement/debounce.rs:81-132 | With the long threshold not above the really long one the events are whole presses and at most one open: down, long, really long, and the release that goes with it. |
| Debounce.OrderExactly | src/movement/debounce.rs:107-132 | All runs give such events if and only if the thresholds are in that order. |
| Uf2.ConvertToUf2 | core/src/uf2.rs:105-147 | The appended header, payload, filler and end magic of each block are the file of the image; nothing for an empty or oversized one. |
| Uf2.Validate | core/src/uf2.rs:46-86 | The payload and block count, or the first error in block order and in the order of the checks. |
| Uf2.BlockAccepted | core/src/uf2.rs:61-83 | A block passes all checks with a payload if and only if it is the encoder's block but for filler and flags, whose family bit is set. |
| Uf2.BlockRefusedAs | core/src/uf2.rs:61-83 | Which error a block gets, in terms of its bytes. |
| Uf2.SizeRefusedAs | core/src/uf2.rs:46-57 | Which sizes are refused, and how. |
| Uf2.AcceptedExactly | core/src/uf2.rs:46-86 | A file is accepted with an image if and only if it is the converter's file for it, but for filler and flags. |
| Uf2.ConvertThenValidate | core/src/uf2.rs:46-147 | The converter's file gives back the image padded with zeros to whole blocks, for every size from 1 to 0x3A000; no other size converts. |
| Uf2.ValidateThenConvert | core/src/uf2.rs:46-147 | Converting the image of an accepted file gives the file back, but for filler and flags. |
| EventLog.EventRing.constructor | core/src/event_log.rs:31-43 | A log starts empty, for any capacity. |
| EventLog.EventRing.Push | core/src/event_log.rs:46-61 | Appends to the contents and drops the oldest beyond the capacity; numbers wrap at 2^32; capacity zero keeps nothing. |
| EventLog.EventRing.Clear | core/src/event_log.rs:64-67 | Empties the contents and goes on numbering. |
| EventLog.EventRing.Get | core/src/event_log.rs:80-86 | The event at an index of the contents, oldest first, or none. |
| EventLog.KeepsTheLatest | core/src/event_log.rs:46-67 | After any pushes and clears the contents are the last events since the last clear, as many as fit. |
| EventLog.Consecutive | core/src/event_log.rs:46-61 | They carry consecutive sequence numbers up to the last one given, also across the wrap. |
| Rings.PushRotates | core/src/event_log.rs:53-60 | Writing at the next slot drops the oldest entry of the ring and appends the new one. |
| Rings.PopRotates | src/movement/baby_kicks.rs:208-229 | Clearing the slot before the next undoes that. |

## Left out

- Display, buzzer, LED, pins, buses, storage drivers, boot and panic code: hardware input and output.
- `launcher/` and `desktop-update/`: file system, processes, HTTP and library cryptography.
- `OpticalSession::receive` and `TimeSyncPolicy::authorize`: not on the path of `service`, which is modelled.
- `get_weeknumber`: it feeds a 1-based day into a formula for a 0-based one, so ISO week numbers do not come out.
- `days_since_new_year`, `seconds_to_duration`, `convert_to_12_hour`, `days_in_month`: easy once the calendar is proved.
- Floating-point code (`rtc_calibration.rs`, `lander.rs`, `astronomy.rs`, `mars_time.rs`, `lightmeter.rs`,
  `kitchen_conversions.rs`): real numbers would not model its rounding.
- The CRC-32 of `uf2.rs`: nothing in that file uses it.
- `EventLog::len` and `is_empty`, `Frame::payload` and other accessors.
- Interval: the editing of timers, the intro, and the drawing of a running timer.
- Blackjack's win counters, tap control and the drawing of cards. Random numbers are an arbitrary stream.
- Baby kicks: the cached time of an event is the event's time.
- Endless runner: scores, sounds, and what `get_random_fuel` puts into the low half of a fuel pattern, which is arbitrary.
- Settings, identity, board tables and the other faces: they would only add easy members.
- The time of long presses in `Debounce.Button.FastTick` beyond the step itself: how often ticks come is not modelled.
