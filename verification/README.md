# Verified models of the embedded SDK's data paths

Dafny models of six parts of the repository, and proofs of what they promise.

* **xTrace** - from the event recorder on the target to the picture on the host: the ring
  recorder (`XtraceRecorder`) and the loop that counts its records (`XtraceCount`), whole
  sessions of it (`XtraceSession`), what overwriting costs (`XtraceOverwrite`) and sessions on
  real memory (`XtraceMachine`), the record and frame formats (`XtraceWire`, `XtraceCanonical`,
  `XtraceCobs`, `XtraceFlush`), the decoder's clock (`XtraceClock`), task timelines
  (`XtraceTasks`) and their interrupts (`XtraceInterrupts`), the CPU load display
  (`XtraceCpuLoad`), and the Perfetto export (`XtracePerfetto`) with what it shows
  (`XtraceExport`) and the nesting of its slices (`XtraceNesting`).
* **xBOOT** - the CRC-32 of section 3.2.9 of IEEE 802.3, computed by table as in section 8 of
  RFC 1952 (`XbootCrcTable`, `XbootCrc`), image headers (`XbootImage`) and the partition table
  (`XbootPartition`).
* **MISRA checker** - the recursion search of rule 17.2 (`MisraRecursion`) and the walk over
  element trees of the 9.x rules (`MisraElement`).
* **xLOGIC** - the capture path with a concurrent co-processor (`XlogicCapture`) and the SUMP
  parser (`XlogicSump`).
* **xBRIDGE** - the UART pump (`XbridgeUart`) and the SLCAN printer and parser (`XbridgeSlcan`).
* **xUSBIP** - the device-list encoder (`XusbipDevlist`) and the pending-request table
  (`XusbipUrb`).

`Bytes`, `Ring`, `Options`, `XlogicDefs` and `XbootDefs` hold what several of them share. Code
that updates state is modelled by classes and loops proved against functions on values; the
theorems are about those functions and about runs of them. `dafny verify dfyconfig.toml` checks everything.

Callbacks, clocks, devices and transports are parameters: a theorem that quantifies over
them holds for any behaviour they can show. Pointers are never null in the model, and
`size_t` has 32 bits, as on the targets.

## Where code and intent differ

The models follow the code. These differences are stated as lemmas, with the exact condition:

* the comment in `xboot_verify.h` promises the finished CRC; the function returns the raw
  register and the callers complement it (`XbootCrc.Calculate`);
* the image bounds check rejects every image of a memory region that reaches the top of the
  address space (`XbootImage.TopOfMemoryUnusable`);
* from 2 GiB of storage on the partition checks accept overlapping slots
  (`XbootPartition.SlotsApartIff`), and the alignment mask needs a power of two
  (`XbootPartition.MaskExact`);
* the usage note in `xtrace_cobs.h` frames every write of a flush by itself, which loses or
  misreads a record exactly when the ring's memory ends inside it (`XtraceFlush.FlushFramed`);
* an overwrite behind a record already partly sent leaves a stream the host misreads
  (`XtraceOverwrite.HostReadsIff`), and the loop that counts the records of such a ring need not
  end (`XtraceCount.EndsIff` says when it does); it always does while the values written stay
  below a limit that depends on the capacity (`XtraceMachine.NoCallHangs`), and larger values
  hang it (`XtraceCount.HarmfulHangs`, `XtraceMachine.HangingRun`);
* an event with the number of BOOT or TIME_SYNC sets the decoder's clock
  (`XtraceClock.ForeignSync`);
* the count of lost calls after an overwrite is right only for certain rings
  (`XtraceOverwrite.OverwriteCounts`), and wrong when nothing has been sent since the first
  event (`XtraceOverwrite.MiscountedRun`);
* a kernel start event that restarts a task erases history (`XtraceTasks.TimelineTrueIff`), an
  interrupt that starts where a RUNNING slice ends is dropped (`XtracePerfetto.InterruptLost`),
  one that runs over a boundary of its task's states without being clipped breaks the nesting
  (`XtraceNesting.TraceNests`), and two that start in the same microsecond swap their ends
  (`XtraceNesting.AllOwnIff`);
* the UART bridge takes bytes out of its queue before it writes them and drops them when the
  write fails (`XbridgeUart.NothingLostIffWritesSucceed`), and likewise towards USB
  (`XbridgeUart.NothingLostIffSendsSucceed`);
* a stale DONE or OVERRUN ends a capture early (`XlogicCapture.ArmSafeIff`,
  `XlogicCapture.DeliveryIff`) and a failed send flips the sample order of the next
  (`XlogicCapture.CaptureDelivered`);
* a metadata block cut after a zero byte passes for complete (`XlogicSump.BuildMetadata`);
* remote CAN frames and long standard identifiers do not survive printing
  (`XbridgeSlcan.FrameArrivesIff`);
* sequence numbers must be fresh (`XusbipUrb.UniqueIffFresh`), requests younger than the
  clock's period (`XusbipUrb.AgeIsElapsed`) and reply buffers smaller than 2^32 - 1020 bytes
  (`XusbipDevlist.CursorExact`).

## Model

| member | source | states |
|---|---|---|
| XtraceWire.WriteVarint | tools/xtrace/exporters/perfetto_proto_exporter.py:44-56 | the varint writer emits the LEB128 bytes of the value modulo 2^64 |
| XtraceWire.LebRoundTrip | tools/xtrace/xtrace_reader.py:27-44 | a written value is read back with its size whatever follows it, exactly below the reader's limit (2^35, or 2^28 for a length prefix); a larger one is refused |
| XtraceWire.VarintPrefix | tools/xtrace/xtrace_reader.py:27-44 | cutting the input never changes a value that was complete, and never invents one |
| XtraceWire.ReadLeb128 | tools/xtrace/xtrace_reader.py:27-44 | the shifting loop reads exactly the encoded value and stops right after it |
| XtraceWire.ReadExactly | tools/xtrace/xtrace_reader.py:47-55 | short reads are retried until the bytes are there or the stream ends |
| XtraceWire.ReadLengthTail | tools/xtrace/xtrace_reader.py:71-83 | the length loop rejects a fifth byte, unlike the value loop |
| XtraceWire.ReadParams | tools/xtrace/xtrace_reader.py:107-118 | peeking and seeking back reads all values to the end of the payload |
| XtraceWire.ReadPayload | tools/xtrace/xtrace_reader.py:85-120 | event id, time delta and parameters of one payload, or the error |
| XtraceWire.ReadOneRecord | tools/xtrace/xtrace_reader.py:60-120 | one record or the error that decides the rest of the stream, with the stream position |
| XtraceWire.RecordsFromStream | tools/xtrace/xtrace_reader.py:205-224 | the records of a stream, in any burst sizes, up to the first truncated or corrupt one |
| XtraceWire.RecordRoundTrip | tools/xtrace/xtrace_reader.py:60-120 | a written record is read back whole exactly when it meets the reader's limits, else it is refused |
| XtraceWire.RecordsRoundTrip | tools/xtrace/xtrace_reader.py:205-224 | a list of written records is read back up to the first one outside the limits, so all of it exactly when all fit |
| XtraceWire.TruncationLosesOnlyTheTail | tools/xtrace/xtrace_reader.py:205-224 | decoding any prefix of any byte stream gives a prefix of its records |
| XtraceCanonical.ShortestRecords | tools/xtrace/xtrace_reader.py:205-224 | no byte string is shorter than what the recorder writes for the records read from it |
| XtraceCanonical.ExactRecords | tools/xtrace/xtrace_reader.py:205-224 | a byte string without zeros that pad out a value is written back byte for byte, as far as records are read from it |
| XtraceCanonical.CutUnpadded | src/components/xutil/xtrace/src/xtrace.c:97-110 | a record cut anywhere and followed by whole records has no such zeros |
| XtraceCobs.PacketRoundTrip | src/components/xutil/xtrace/src/xtrace_cobs.c:44-105 | an encoded packet has no zero byte and decodes to what was encoded, for zeros and full 254-byte runs alike |
| XtraceCobs.Encode | src/components/xutil/xtrace/src/xtrace_cobs.c:44-105 | the back-patching encoder writes exactly one frame when the buffer passes its size test, else nothing |
| XtraceCobs.DecodeInto | src/components/xutil/xtrace/src/xtrace_cobs.c:107-175 | the bounded decoder of the target writes what its specification says and nothing beyond |
| XtraceCobs.BoundedDecodeAgrees | src/components/xutil/xtrace/src/xtrace_cobs.c:107-175 | it agrees with the host's decoder: same bytes when there is room, a prefix otherwise, truncation reported exactly for damage or lack of room |
| XtraceCobs.DecodePacket | tools/xtrace/xtrace_reader.py:125-154 | the host's decoding loop |
| XtraceCobs.RecordsFromCobsStream | tools/xtrace/xtrace_reader.py:157-186 | the frame splitter yields the records of every complete frame |
| XtraceCobs.SplitAtDelimiter | tools/xtrace/xtrace_reader.py:171-186 | after any 0x00 the stream reads like a fresh one: records of the whole are those of the two parts |
| XtraceCobs.FramingRoundTrip | tools/xtrace/xtrace_reader.py:157-186 | records, length prefixes, frames: each batch comes back up to its first record outside the limits, whatever follows |
| XtraceCobs.RecoveredAll | tools/xtrace/xtrace_reader.py:157-186 | which is the whole of every batch when all records fit |
| XtraceCobs.CutRecordIsLost | src/components/xutil/xtrace/include/xtrace_cobs.h:27-35 | framing each write of a flush by itself, as the usage note shows, loses the part of a record at the end of a write; the next frame delivers what the rest of the record happens to read as |
| XtraceCobs.CutDelivers | src/components/xutil/xtrace/include/xtrace_cobs.h:27-35 | what the two frames deliver together, for every place of the cut |
| XtraceCobs.CutRecovered | src/components/xutil/xtrace/include/xtrace_cobs.h:27-35 | two frames recover the records cut across them exactly when the cut falls between two records |
| XtraceCobs.TailMisread | src/components/xutil/xtrace/include/xtrace_cobs.h:27-35 | the rest of a cut record can read as a record nobody wrote |
| XtraceCobs.DamageStaysLocal | tools/xtrace/xtrace_reader.py:171-186 | arbitrary bytes between two delimiters cost nothing sent before or after them |
| Ring.PutHeld | src/components/xutil/xtrace/src/xtrace.c:80-94 | a byte stored at the write position joins the end of the circular queue |
| Ring.DropHeld | src/components/xutil/xtrace/src/xtrace.c:508 | moving the read position drops exactly the oldest bytes, around the end of the buffer |
| XtraceRecorder.Recorder.SkipPrefix | src/components/xutil/xtrace/src/xtrace.c:130-138 | the inner loop reads one length of at most five bytes, low 32 bits, around the end of the buffer |
| XtraceRecorder.Recorder.RecordCount | src/components/xutil/xtrace/src/xtrace.c:119-147 | on every ring on which the loop ends, whole records or not, the count is that of the loop in 32-bit arithmetic |
| XtraceCount.WholeRecordsCount | src/components/xutil/xtrace/src/xtrace.c:119-147 | on a ring of whole records of at most 2 GiB the loop ends and counts exactly them |
| XtraceCount.ForwardEnds | src/components/xutil/xtrace/src/xtrace.c:119-147 | on any ring, started anywhere inside a record or not, the loop ends within one round a byte when every length it may meet moves it forward without wrapping the distance |
| XtraceCount.EndsIff | src/components/xutil/xtrace/src/xtrace.c:119-147 | on any memory at all the loop ends exactly when it ends within capacity^2 rounds, and exactly when it meets no place twice |
| XtraceCount.ReturnsForever | src/components/xutil/xtrace/src/xtrace.c:119-147 | a length that makes its record 2^32 bytes long keeps the loop from ever ending, wherever it is met |
| XtraceCount.TameRecords | src/components/xutil/xtrace/src/xtrace.c:80-110 | memory from every place of which a harmless value is read stays so when records of harmless values are written over it: the tail of a written value is a written value |
| XtraceCount.TameForward | src/components/xutil/xtrace/src/xtrace.c:119-147 | in such memory the loop moves forward from every place: every ring of at most 2 GiB is counted, wherever flushes have cut its records |
| XtraceCount.HarmfulHangs | src/components/xutil/xtrace/src/xtrace.c:119-147 | the limit on values is sharp: every larger one, but for the next five and the last four below 2^32, hangs the loop on some ring |
| XtraceRecorder.Recorder.RingPutLeb | src/components/xutil/xtrace/src/xtrace.c:97-110 | the ring receives the LEB128 bytes of the value |
| XtraceRecorder.Recorder.RingPutGap | src/components/xutil/xtrace/src/xtrace.c:158-165 | the ring receives one complete GAP record |
| XtraceRecorder.Recorder.EmitStart | src/components/xutil/xtrace/src/xtrace.c:189-272 | all branches of the common prologue: space test, pending GAP, overwrite restart, refusal |
| XtraceRecorder.Recorder.constructor | src/components/xutil/xtrace/src/xtrace.c:291-344 | a new recorder holds BOOT when it is enabled and nothing otherwise, and every event is enabled |
| XtraceRecorder.Recorder.FilterEnableEvent | src/components/xutil/xtrace/src/xtrace.c:549-557 | after it exactly that event is enabled besides those that were; numbers from 256 on always are |
| XtraceRecorder.Recorder.FilterDisableModule | src/components/xutil/xtrace/src/xtrace.c:599-615 | a group of 32 event numbers is switched off, but for the first three of the first group |
| XtraceRecorder.Recorder.FilterDisableEvent | src/components/xutil/xtrace/src/xtrace.c:559-567 | after it exactly that event, when below 256, is not enabled any more: together with the next row exactly its calls change nothing from then on |
| XtraceRecorder.Recorder.EmitRecord | src/components/xutil/xtrace/src/xtrace.c:363-421 | one emit call leaves the ring, the loss counter and the clock as specified; it changes nothing at all exactly when the recorder is disabled or the event is filtered |
| XtraceRecorder.Recorder.FlushWrite | src/components/xutil/xtrace/src/xtrace.c:483-508 | one write of a flush: the contiguous part of the ring is offered, what was taken leaves the ring |
| XtraceRecorder.Recorder.Flush | src/components/xutil/xtrace/src/xtrace.c:462-512 | for any transport, what was sent plus what is left is what was queued; the flush goes on while writes take something, fails exactly when the last write fails or claims too much, and empties the ring or stops at a write of nothing; a transport that takes every write whole is offered the two pieces of the ring |
| XtraceFlush.FlushFramed | src/components/xutil/xtrace/include/xtrace_cobs.h:27-35 | when every write of a flush is framed by itself, the records of the ring are all recovered exactly when the end of its memory falls between two of them or the ring does not wrap |
| XtraceFlush.FlushCuts | src/components/xutil/xtrace/src/xtrace.c:485-495 | a run of three steps from cleared memory after which a flush cuts a record, and two frames do not deliver it |
| XtraceRecorder.LebSizeOf | src/components/xutil/xtrace/src/xtrace.c:67-77 | the size loop is the length of the encoding |
| XtraceRecorder.BootFits | src/components/xutil/xtrace/src/xtrace.c:329-342 | every allowed capacity holds the BOOT record, so its loss branch is dead |
| XtraceRecorder.HeaderShrinks | src/components/xutil/xtrace/src/xtrace.c:260-266 | the delta set to zero after the space test never needs more room than was tested |
| XtraceSession.AcceptedBytes | src/components/xutil/xtrace/src/xtrace.c:212-271 | an accepted call appends exactly the pending GAP record, if any, and the event record |
| XtraceSession.OverwriteRestarts | src/components/xutil/xtrace/src/xtrace.c:212-256 | a call that finds no room leaves BOOT, GAP and the event under the overwrite policy when these fit, whatever the ring held, and is only counted otherwise |
| XtraceSession.StreamIsLogIff | src/components/xutil/xtrace/src/xtrace.c:189-272 | over every run under either policy the bytes sent and queued are the log written out record by record exactly when every overwrite found the bytes sent ending at a record boundary |
| XtraceSession.ChargeIsCount | src/components/xutil/xtrace/src/xtrace.c:119-147 | the count a step of a session charges for a ring of whole records, of at most 2 GiB, is what the recorder's loop returns on its memory |
| XtraceMachine.SoundDo | src/components/xutil/xtrace/src/xtrace.c:189-272 | with the memory of the ring added to a session, the bytes held between the two positions are the queue after every operation |
| XtraceMachine.RunOfMachine | src/components/xutil/xtrace/src/xtrace.c:189-272 | every run on real memory is a run of a session whose counts are those the loop comes to, so that all that is proved of sessions holds of it |
| XtraceMachine.ChargeIsTally | src/components/xutil/xtrace/src/xtrace.c:119-147 | and the charge of each step is then what the loop returns on that memory, inside a record or not |
| XtraceMachine.NoCallHangs | src/components/xutil/xtrace/src/xtrace.c:217-247 | on a ring of at most 2 GiB in cleared memory every call of every run returns, wherever flushes cut the records, when every id, delta, time stamp, count and parameter written is below 2^32 - capacity - 4 or above 2^32 - 5 |
| XtraceMachine.HangingRun | src/components/xutil/xtrace/src/xtrace.c:217-247 | sharp in runs: for every ring, an event with any larger parameter up to 2^32 - 5 that fits behind BOOT and a flush that stops inside it leave a ring on which the next overwrite never returns |
| XtraceMachine.Perform | src/components/xutil/xtrace/src/xtrace.c:363-421 | one operation on the recorder class: under those conditions the call needs no assumption that it returns, and leaves the machine's state |
| XtraceMachine.PerformAll | src/components/xutil/xtrace/src/xtrace.c:363-421 | and so any run of them |
| XtraceMachine.Construct | src/components/xutil/xtrace/src/xtrace.c:291-344 | a recorder constructed and enabled on cleared memory is the machine at power-up, with every event enabled |
| XtraceMachine.RunFromPowerUp | src/components/xutil/xtrace/src/xtrace.c:291-421 | so from construction on any run of calls on the class is the run of the machine |
| XtraceSession.HostReadsTheLog | tools/xtrace/xtrace_reader.py:205-224 | over every such run the host recovers from the bytes sent a prefix of the log, and all of it once the ring is drained |
| XtraceOverwrite.RestartMisread | src/components/xutil/xtrace/src/xtrace.c:238-240 | BOOT, GAP and event written behind the first part of another record are never read back as written, whatever the records |
| XtraceOverwrite.HostReadsIff | tools/xtrace/xtrace_reader.py:205-224 | over every run under either policy the host can read the whole log at every point exactly when every overwrite found the bytes sent ending at a record boundary |
| XtraceOverwrite.MisreadRun | src/components/xutil/xtrace/src/xtrace.c:217-247 | a run of three steps after which the host shows a record nobody wrote and stops |
| XtraceOverwrite.MidRecordCount | src/components/xutil/xtrace/src/xtrace.c:119-147 | what the count loop charges in that run |
| XtraceMachine.MisreadMachine | src/components/xutil/xtrace/src/xtrace.c:217-247 | the same run from cleared memory, with the loop's own count |
| XtraceSession.NothingLostSilently | src/components/xutil/xtrace/src/xtrace.c:189-272 | at every point of every run each enabled call is an event of the log, is counted by a GAP of the log, or is in the loss counter, exactly when no call wraps the counter and every overwrite charges what its ring stands for; the drop policy never fails below 2^32 operations |
| XtraceOverwrite.ChargeMeaning | src/components/xutil/xtrace/src/xtrace.c:119-147 | a ring has as many records as it stands for calls exactly when BOOT has been sent and every waiting GAP counts one loss, or BOOT waits and one GAP counts two, the others one |
| XtraceOverwrite.OverwriteCounts | src/components/xutil/xtrace/src/xtrace.c:217-247 | over every run with aligned overwrites the counts in the GAP records and the loss counter are right at every point exactly when every overwrite finds such a ring and no loss wraps the counter |
| XtraceOverwrite.MiscountedRun | src/components/xutil/xtrace/src/xtrace.c:221-222 | two events and nothing flushed: the GAP says two calls were lost, one was |
| XtraceSession.HostClockIsTrue | src/components/xutil/xtrace/src/xtrace.c:200-257 | over every run in time order under either policy the deltas since BOOT, added up, are right modulo the 32-bit counter at each record, and are its true time since the wrap before the last restart when no two records of a stretch are a wrap apart |
| XtraceClock.DecodeAll | tools/xtrace/xtrace_decoder.py:104-178 | the decoding loop: BOOT and TIME_SYNC set the clock, every other record advances it |
| XtraceClock.ClockError | tools/xtrace/xtrace_decoder.py:142-143 | after k ordinary records the clock is never early, late by less than k microseconds, and exact iff every delta is a whole number of microseconds |
| XtraceClock.ShownTimesAscend | tools/xtrace/xtrace_decoder.py:142-178 | shown times never decrease between BOOT and TIME_SYNC |
| XtraceClock.ExactFrequency | tools/xtrace/xtrace_decoder.py:142-143 | a frequency dividing 10^6 loses nothing |
| XtraceClock.SessionTimestamps | tools/xtrace/xtrace_decoder.py:113-178 | the time shown with a record of a log, restarts included, whose events do not pass for BOOT or TIME_SYNC, is its tick count: never early, late by less than a microsecond a record |
| XtraceClock.HostShowsTrueTime | tools/xtrace/xtrace_decoder.py:113-178 | end to end over every run in time order, prompt and of calls that avoid those two numbers: the time the host shows with a record, from the bytes it got, is the true time of the call to within a microsecond a record, never early |
| XtraceClock.ForeignSync | tools/xtrace/xtrace_decoder.py:135-140 | one call whose event number is that of TIME_SYNC: at true time 5 the decoder's clock shows 7 |
| XtraceClock.SyncSets | tools/xtrace/xtrace_decoder.py:135-140 | a clock setting is not shown; from it on the clock is its low word plus 2^32 times its high word, advanced by the deltas that follow |
| XtraceTasks.TaskStateTracker.ProcessRecord | tools/xtrace/xtrace_decoder.py:264-341 | one event through the tracker's fields |
| XtraceTasks.TaskStateTracker.FinalizeAt | tools/xtrace/xtrace_decoder.py:343-346 | closing what is open, in dictionary order |
| XtraceTasks.ViewOfRun | tools/xtrace/xtrace_decoder.py:264-341 | over any event sequence the tracker's running task and states are those of a scheduler that knows no times or slices |
| XtraceTasks.OneRunsStep | tools/xtrace/xtrace_decoder.py:268-299 | an event keeps a single running task exactly when it hands the processor over |
| XtraceTasks.TimelineIsTrue | tools/xtrace/xtrace_decoder.py:264-346 | for every trace in time order whose kernel start events drop no begun interval: a slice shows a task in a state at an instant exactly when the events up to then put it there, so slices tile each task's life without gap or overlap |
| XtraceTasks.ShownWasSo | tools/xtrace/xtrace_decoder.py:264-346 | in time order alone nothing is shown that was not so |
| XtraceTasks.TimelineTrueIff | tools/xtrace/xtrace_decoder.py:264-346 | in time order the timeline is true of every task, state and instant exactly when no kernel start event drops a begun interval |
| XtraceTasks.TimelineRowsInOrder | tools/xtrace/xtrace_decoder.py:484-513 | in time order the slices of one task are non-empty and follow each other, whatever the events say |
| XtraceTasks.RunningSlicesDisjoint | tools/xtrace/xtrace_decoder.py:264-346 | RUNNING slices of all tasks are pairwise disjoint when events hand the processor over |
| XtraceTasks.RestartErases | tools/xtrace/xtrace_decoder.py:268-271 | two kernel start events for one task: the timeline begins with the second |
| XtraceTasks.TimelineInterrupts | tools/xtrace/xtrace_decoder.py:320-341 | interrupts of a timeline are nested or apart and listed in the order they end, and each starts at an entry event that found its task running |
| XtraceInterrupts.OpenerMeaning | tools/xtrace/xtrace_decoder.py:320-341 | searching backwards and counting, an exit finds the entry with which it is a pair of brackets among the entries that find a task running |
| XtraceInterrupts.TimelineDraws | tools/xtrace/xtrace_decoder.py:320-341 | for every trace the interrupts of the timeline are, in the order of their exits and each as often, those such pairs draw: the task that was running, the vector, from entry to exit, empty ones left out |
| XtraceInterrupts.DrawnIff | tools/xtrace/xtrace_decoder.py:320-341 | an interrupt is in the timeline iff some entry and exit are brackets and draw it |
| XtraceTasks.InterruptInsideRunning | tools/xtrace/xtrace_decoder.py:320-341 | an interrupt starts inside a RUNNING slice of its task iff the events left that task running |
| XtraceCpuLoad.ScanRow | tools/xtrace/xtrace_decoder.py:434-451 | one task at one switch time: the never-rewinding index and the early exit give the plain overlap sum |
| XtraceCpuLoad.CpuLoadCounters | tools/xtrace/xtrace_decoder.py:391-462 | all samples, at every switch time and task, equal the naive sum over every RUNNING interval |
| XtraceCpuLoad.SamplesAreLoads | tools/xtrace/xtrace_decoder.py:391-462 | said of all slices, in any order: one sample for every start of a RUNNING slice and every task that has one, of 100 times the time its RUNNING slices have in the window by the window |
| XtraceCpuLoad.SortKeeps | tools/xtrace/xtrace_decoder.py:411-412 | sorting a row changes no overlap |
| XtraceCpuLoad.LoadsWithinHundred | tools/xtrace/xtrace_decoder.py:452 | disjoint RUNNING intervals never total more than 100 percent in any window |
| XtraceCpuLoad.TraceLoadsWithinHundred | tools/xtrace/xtrace_decoder.py:391-462 | so for every trace whose events hand the processor over |
| XtraceCpuLoad.SampleIsTime | tools/xtrace/xtrace_decoder.py:391-462 | for every chronicle a load is the share of the microseconds of its window at which the events had the task running |
| XtracePerfetto.ClipIsrToRunning | tools/xtrace/exporters/perfetto_proto_exporter.py:384-431 | the clipping pass over all tasks |
| XtraceExport.ExportIsTimeline | tools/xtrace/exporters/perfetto_proto_exporter.py:384-431 | what is exported, each as often: a state from its start to its end under its own name on its task's track, an interrupt from its start under its vector to the earlier of its own end and that of the first RUNNING slice that contains its start, unless nothing remains |
| XtraceExport.ExportedIff | tools/xtrace/exporters/perfetto_proto_exporter.py:384-431 | exported iff some slice of the timeline is drawn as it |
| XtraceExport.ExportShowsStates | tools/xtrace/exporters/perfetto_proto_exporter.py:384-431 | a nanosecond is covered by an exported state of a task iff the timeline shows that state at its microsecond |
| XtraceExport.ExportIsTrue | tools/xtrace/exporters/perfetto_proto_exporter.py:384-431 | so for every chronicle iff the events had the task in that state |
| XtracePerfetto.EmitSorted | tools/xtrace/exporters/perfetto_proto_exporter.py:542-551 | the slice events with their orders, then the sort by time and order |
| XtracePerfetto.SortInOrder | tools/xtrace/exporters/perfetto_proto_exporter.py:663 | the stable sort leaves the events ordered by time, order and original position |
| XtracePerfetto.InterruptLost | tools/xtrace/exporters/perfetto_proto_exporter.py:417-427 | an interrupt vanishes from the export iff a RUNNING slice of its task ends at the instant it starts |
| XtraceNesting.OwnByHeight | tools/xtrace/exporters/perfetto_proto_exporter.py:542-551 | an end event finds its own slice on top of the viewer's stack exactly when the stack is one higher then than before the begin, and no lower between |
| XtraceNesting.StateEndIsOwn | tools/xtrace/exporters/perfetto_proto_exporter.py:542-551 | the end of a state slice closes that slice exactly when no exported interrupt of its track runs over one of its two boundaries |
| XtraceNesting.AllOwnIff | tools/xtrace/exporters/perfetto_proto_exporter.py:542-551 | every end of a track closes its own slice exactly when no interrupt crosses a state and no two interrupts start at the same time |
| XtraceNesting.ClipTasksTidy | tools/xtrace/exporters/perfetto_proto_exporter.py:384-431 | clipping keeps states in order and interrupts nested or apart on every track |
| XtraceNesting.CrossingsKept | tools/xtrace/exporters/perfetto_proto_exporter.py:412-429 | crossings in the export are those in the timeline by interrupts that no RUNNING slice of their task clips |
| XtraceNesting.TraceNests | tools/xtrace/exporters/perfetto_proto_exporter.py:384-551 | for every trace in time order: on a task's track every state's end closes that state iff no interrupt crosses one, then every interrupt's end closes an interrupt; every end closes its own slice iff also no two interrupts start together; nothing stays open |
| XtraceNesting.RunningEntriesNest | tools/xtrace/exporters/perfetto_proto_exporter.py:384-551 | so every trace nests whose interrupts are entered at instants that leave the task they are charged to RUNNING |
| XtraceNesting.CrossingTimeline | tools/xtrace/xtrace_decoder.py:320-341 | five events whose timeline has an interrupt that crosses two states of a task made ready while it runs |
| XtraceNesting.PassingTimeline | tools/xtrace/xtrace_decoder.py:320-341 | six events that charge a crossing interrupt to a task RUNNING for an empty slice |
| XtraceNesting.CrossingInterruptSteals | tools/xtrace/exporters/perfetto_proto_exporter.py:424-429 | the first of these tracks has a state whose end closes another slice, whatever else is exported |
| XtraceNesting.PassingInterruptSteals | tools/xtrace/exporters/perfetto_proto_exporter.py:424-429 | so has the second |
| XtraceNesting.LosingTimeline | tools/xtrace/exporters/perfetto_proto_exporter.py:417-427 | four events whose timeline has an interrupt that the export leaves out |
| XtraceNesting.TwinsSwap | tools/xtrace/exporters/perfetto_proto_exporter.py:542-551 | five events with two interrupts entered at one instant: every state's end is its own, an interrupt's closes the other, whatever else is exported |
| XbootCrcTable.TableIsByteStep | src/components/xboot/src/xboot_verify.c:35-61 | each of the 256 table words is eight steps of the reflected register with polynomial 0xEDB88320 |
| XbootCrc.Calculate | src/components/xboot/src/xboot_verify.c:71-85 | for every byte string and seed the table loop returns the bit-by-bit register, without the final complement |
| XbootCrc.LookupIsByteStep | src/components/xboot/src/xboot_verify.c:80 | one table lookup is one byte of the register |
| XbootCrc.CrcLinear | src/components/xboot/src/xboot_verify.c:71-85 | the difference of two registers is a register fed the difference of the messages |
| XbootCrc.BurstDetected | src/components/xboot/src/xboot_verify.c:71-85 | messages that differ only within 32 consecutive bits have different CRCs, for every seed and length |
| XbootCrc.ByteBurstDetected | src/components/xboot/src/xboot_verify.c:71-85 | in bytes: differences within four consecutive bytes are detected |
| XbootCrc.Residue | src/components/xboot/src/xboot_image.c:82-89 | the stored-checksum test is one test of the register over data and checksum against 0xDEBB20E3 |
| XbootCrc.BurstBreaksStamp | src/components/xboot/src/xboot_image.c:82-89 | damage within four consecutive bytes of a block and its checksum, straddling included, always breaks the test |
| XbootImage.HeaderParse | src/components/xboot/src/xboot_image.c:46-95 | accepted exactly when long enough, recognised and stamped; each error exactly in its case; the parsed fields |
| XbootImage.HeaderInverse | src/components/xboot/include/xboot_image.h:42-57 | the header read from a buffer is h iff its first 52 bytes are the 13 words of h laid out in the order of the structure |
| XbootImage.HeaderRoundTrip | src/components/xboot/src/xboot_image.c:46-95 | any header laid out that way and followed by any bytes is read back, and accepted iff its magic, version, size and checksum are right |
| XbootImage.BurstRejected | src/components/xboot/src/xboot_image.c:82-89 | a header with a right checksum, so any accepted one, changed within four consecutive bytes is rejected |
| XbootImage.BoundsExact | src/components/xboot/src/xboot_image.c:97-124 | the wrapping bounds check passes exactly the well-placed images of memories that end below 2^32 |
| XbootImage.TopOfMemoryUnusable | src/components/xboot/src/xboot_image.c:110-114 | a region reaching the top of the address space admits no image, though images fit it |
| XbootPartition.ValidateHeader | src/components/xboot/src/xboot_partition.c:47-74 | header and checksum tests with their errors |
| XbootPartition.Table.CheckOverlap | src/components/xboot/src/xboot_partition.c:105-116 | the loop finds an overlap, in wrapping arithmetic, iff there is one |
| XbootPartition.Table.Parse | src/components/xboot/src/xboot_partition.c:120-190 | success exactly for acceptable buffers, with all entries in place; each error in its case |
| XbootPartition.EntryInverse | src/components/xboot/include/xboot_partition.h:51-57 | the entry read at a place is e iff the 16 bytes there are the four words of e in the order of the structure |
| XbootPartition.TableReads | src/components/xboot/include/xboot_partition.h:59-67 | a table laid out as the structure and followed by any bytes gives back its count, its checksum and the entries in use |
| XbootPartition.Table.LookupType | src/components/xboot/src/xboot_partition.c:192-209 | the first entry of the type, or none exactly when no listed entry has it |
| XbootPartition.Table.LookupSlot | src/components/xboot/src/xboot_partition.c:211-233 | slots 0 and 1 find the first entries of types 2 and 3; a missing entry and any other slot have their errors |
| XbootPartition.MaskExact | src/components/xboot/src/xboot_partition.c:85 | the alignment mask tests divisibility for every word iff the sector size is a power of two |
| XbootPartition.BoundsExact | src/components/xboot/src/xboot_partition.c:97 | the wrapping bounds test is exact for every entry iff the storage is below 2 GiB |
| XbootPartition.EntriesMeaning | src/components/xboot/src/xboot_partition.c:76-116 | under those two conditions the listed entries pass exactly when each is typed, aligned, non-empty and inside the storage and all are pairwise disjoint as integer intervals |
| XbootPartition.SlotsNeverOverlap | src/components/xboot/src/xboot_partition.c:192-232 | below 2 GiB of storage the primary and secondary slots found in an accepted table never overlap, whatever the sector size |
| XbootPartition.LargeStorageOverlaps | src/components/xboot/src/xboot_partition.c:97-110 | for every storage of 2 GiB or more and every power-of-two sector size up to 2^31 two overlapping application slots pass |
| XbootPartition.SlotsApartIff | src/components/xboot/src/xboot_partition.c:76-116 | so for each such sector size the slots never overlap iff the storage is below 2 GiB |
| XbootPartition.BurstRejected | src/components/xboot/src/xboot_partition.c:64-71 | an accepted table changed within four consecutive bytes is rejected |
| MisraRecursion.FindRecursiveCall | tools/misra/misra.py:2261-2275 | with the visited set shared and mutated across branches: found implies a call path; not found implies everything newly seen is fully explored |
| MisraRecursion.CallsBack | tools/misra/misra.py:2261-2275 | the search terminates on every finite call graph and decides reachability |
| MisraRecursion.CollectCalls | tools/misra/misra.py:2282-2290 | the functions called in a body, each once, in order |
| MisraRecursion.CollectCallMap | tools/misra/misra.py:2277-2291 | the call graph, later scopes of a function replacing earlier ones |
| MisraRecursion.ReportCall | tools/misra/misra.py:2300-2307 | the tokens reported for one call |
| MisraRecursion.Misra17_2 | tools/misra/misra.py:2259-2307 | reports, each once, exactly the tokens that stand for a call lying on a cycle |
| MisraRecursion.SilentMeansAcyclic | tools/misra/misra.py:2293-2307 | nothing is reported iff the call graph has no cycle, when every call is written in a body of its caller |
| MisraElement.ElementDef.AddChild | tools/misra/misra_9.py:78-80 | adding a finished tree extends the two-way linked tree by one last child |
| MisraElement.ElementDef.GetFirstValueElement | tools/misra/misra_9.py:114-122 | the leftmost leaf |
| MisraElement.ElementDef.GetNextValueElement | tools/misra/misra_9.py:98-112 | the next leaf in document order under the root, or None after the last, with a measure for the climb |
| MisraElement.WalkStep | tools/misra/misra_9.py:100-111 | one round: the right sibling's first leaf, or up to a parent that inherits what follows |
| MisraElement.AfterLeaf | tools/misra/misra_9.py:98-112 | what follows a leaf is the next leaf |
| MisraElement.LeavesAreValues | tools/misra/misra_9.py:98-122 | the leaves are exactly the childless elements, each once |
| MisraElement.WalkValueElements | tools/misra/misra_9.py:98-122 | first then next until None visits every leaf exactly once, left to right |
| XlogicCapture.ReverseBytes | src/applications/xlogic/src/xlogic_transport.c:50-68 | the two-index loop reverses the prefix in place and leaves the rest |
| XlogicCapture.ChannelIsDigit | src/applications/xlogic/src/xlogic_core.c:67-78 | testing a channel against the mask bit by bit is testing its binary digit |
| XlogicCapture.MapTriggerChannel | src/applications/xlogic/src/xlogic_core.c:67-78 | the lowest channel in the mask, or 0 |
| XlogicCapture.CaptureUnit.constructor | src/applications/xlogic/src/xlogic_core.c:132-163 | the whole state after both initialisations, on memory with any contents |
| XlogicCapture.CaptureUnit.Arm | src/applications/xlogic/src/xlogic_core.c:165-209 | the whole new state, field by field, with the nearest rate the hardware has; refused unless idle |
| XlogicCapture.CaptureUnit.Abort | src/applications/xlogic/src/xlogic_core.c:211-237 | back to idle from any state |
| XlogicCapture.CaptureUnit.ReadSamples | src/applications/xlogic/src/xlogic_pru.c:150-192 | the bytes read, the offset moved, nothing else touched |
| XlogicCapture.CaptureUnit.SendSamples | src/applications/xlogic/src/xlogic_transport.c:205-232 | the buffer is reversed whether or not the send succeeds |
| XlogicCapture.CaptureUnit.Poll | src/applications/xlogic/src/xlogic_core.c:239-269 | one poll in every state |
| XlogicCapture.PollDoes | src/applications/xlogic/src/xlogic_core.c:239-269 | what a poll does in every state but DONE, by the status it sees |
| XlogicCapture.StepsDo | src/applications/xlogic/src/xlogic_pru.c:109-148 | what arming, aborting and a write of the co-processor set, field by field |
| XlogicCapture.AlwaysSafe | src/applications/xlogic/src/xlogic_core.c:165-269 | over every interleaving with arbitrary co-processor writes, even inside a call, the two indices stay within their memories |
| XlogicCapture.CaptureDelivered | src/applications/xlogic/src/xlogic_core.c:85-128 | for every interleaving with a disciplined co-processor in which no poll meets the state DONE or the status OVERRUN before it has finished: nothing is sent before, and then exactly the first min(count, ring, buffer) bytes once, reversed iff an even number of sends had failed |
| XlogicCapture.DeliveryIff | src/applications/xlogic/src/xlogic_core.c:81-128 | the exact condition over interleavings: while the co-processor has not finished, everything still to come is sure to be delivered in full exactly when no poll so far was such an early one |
| XlogicCapture.ArmSafeIff | src/applications/xlogic/src/xlogic_pru.c:109-120 | what can be checked before arming: no interleaving has an early poll exactly when the old status is neither DONE nor OVERRUN |
| XlogicCapture.DeliveredAfterTwoPolls | src/applications/xlogic/src/xlogic_core.c:85-128 | two polls after DONE suffice when the send succeeds |
| XlogicCapture.StaleDoneEndsCapture | src/applications/xlogic/src/xlogic_pru.c:109-120 | a DONE left over from before the arm: two polls before the first write end the capture with nothing sent, and a write between them sends the part of the ring filled by then |
| XlogicSump.AssembledIsValue | src/applications/xlogic/src/xlogic_sump.c:61-66 | shifting and or-ing four bytes is their little-endian value |
| XlogicSump.SumpContext.FeedByte | src/applications/xlogic/src/xlogic_sump.c:216-255 | one byte through the parser's fields |
| XlogicSump.OneByteDoes | src/applications/xlogic/src/xlogic_sump.c:68-96 | every short command of any number and what it leaves: reset, run, identification, metadata, nothing |
| XlogicSump.FiveBytesSet | src/applications/xlogic/src/xlogic_sump.c:98-152 | every long command of any number and any four bytes: which field of the configuration it sets, to which number, and that it leaves the others |
| XlogicSump.TransportContext.ProcessRx | src/applications/xlogic/src/xlogic_transport.c:145-178 | a packet through parser, flags and replies |
| XlogicSump.ReceivedInPieces | src/applications/xlogic/src/xlogic_transport.c:155-177 | processing a concatenation is processing the pieces in turn |
| XlogicSump.ZerosReset | src/applications/xlogic/src/xlogic_sump.c:216-255 | zero bytes request a reset, and restore the initial parser, from exactly the number the state needs |
| XlogicSump.FiveZerosReset | src/applications/xlogic/src/xlogic_sump.c:68-76 | five zero bytes reset from every reachable state; four do not from the state after an opcode |
| XlogicSump.StreamMeaning | src/applications/xlogic/src/xlogic_sump.c:216-255 | for every byte stream in any packets the analyser has carried out exactly the commands it spells, an incomplete last one without effect |
| XlogicSump.SpelledCommands | src/applications/xlogic/src/xlogic_sump.c:216-255 | any list of commands is recovered from its encoding |
| XlogicSump.ConfigRoundTrip | src/applications/xlogic/src/xlogic_sump.c:98-151 | for every expressible configuration the host's six commands, in any packets, set exactly it whatever was set before |
| XlogicSump.BuildMetadata | src/applications/xlogic/src/xlogic_sump.c:257-309 | success iff the block fits or is cut right after a zero byte, which the overflow test mistakes for the end marker |
| XlogicSump.MetadataSays | src/applications/xlogic/src/xlogic_sump.c:257-309 | read tag by tag the block names the analyser and its version, 2097088 bytes, 333 MHz, 8 probes and protocol 2 |
| XbridgeUart.ByteRing.Enqueue | src/applications/xbridge/src/xbridge_uart.c:53-70 | all of the data or none |
| XbridgeUart.ByteRing.Dequeue | src/applications/xbridge/src/xbridge_uart.c:72-87 | the oldest bytes, in order |
| XbridgeUart.Bridge.OnUsbReceive | src/applications/xbridge/src/xbridge_uart.c:123-144 | ignored without DTR, refused whole exactly when more than 511 bytes would wait |
| XbridgeUart.Bridge.Poll | src/applications/xbridge/src/xbridge_uart.c:178-258 | one poll under any device behaviour |
| XbridgeUart.PollDoes | src/applications/xbridge/src/xbridge_uart.c:178-258 | each error exactly in its case, and what moves: at most 64 bytes each way, those read behind those waiting |
| XbridgeUart.EveryByteHandedOver | src/applications/xbridge/src/xbridge_uart.c:123-258 | over every run with any failures: bytes handed to the UART plus bytes queued are the accepted chunks in order, bytes handed to USB are the bytes read, and the ring to USB is empty between polls |
| XbridgeUart.NothingLostIffWritesSucceed | src/applications/xbridge/src/xbridge_uart.c:199-212 | bytes of successful writes plus bytes queued are the accepted chunks exactly when no poll with bytes queued had a failing write |
| XbridgeUart.NothingLostIffSendsSucceed | src/applications/xbridge/src/xbridge_uart.c:239-255 | bytes of successful sends are the bytes read exactly when no poll with bytes to send had a failing send |
| XbridgeUart.PollNeverFull | src/applications/xbridge/src/xbridge_uart.c:229-237 | the poll's queue-full branch never fires |
| XbridgeUart.PollsDrain | src/applications/xbridge/src/xbridge_uart.c:199-201 | k polls move min(64 k, queued) bytes on |
| XbridgeSlcan.ParseHex | src/applications/xbridge/src/xbridge_can.c:83-93 | up to eight digits give their value |
| XbridgeSlcan.NibbleCases | src/applications/xbridge/src/xbridge_can.c:62-81 | one digit in either case; anything else counts as 0 |
| XbridgeSlcan.ValueOfDigits | src/applications/xbridge/src/xbridge_can.c:362-382 | printed digits read back as the value modulo 16^k |
| XbridgeSlcan.Channel.DispatchLine | src/applications/xbridge/src/xbridge_can.c:100-238 | every command of a complete line |
| XbridgeSlcan.LineDoes | src/applications/xbridge/src/xbridge_can.c:100-238 | every line that is not a transmit request: the calls it makes, what it leaves and its reply |
| XbridgeSlcan.TransmitRefused | src/applications/xbridge/src/xbridge_can.c:160-222 | a transmit request on a closed channel, cut short or with a length above 8 is refused without a call |
| XbridgeSlcan.Channel.OnUsbReceive | src/applications/xbridge/src/xbridge_can.c:278-320 | bytes through the line buffer, overlong lines clipped |
| XbridgeSlcan.PrintFrame | src/applications/xbridge/src/xbridge_can.c:356-394 | the printed line of a frame, within its 30-byte buffer |
| XbridgeSlcan.Channel.Poll | src/applications/xbridge/src/xbridge_can.c:322-405 | all waiting frames printed in order |
| XbridgeSlcan.PrintedIsTransmitted | src/applications/xbridge/src/xbridge_can.c:160-222 | one printed frame causes exactly one transmit with its data, and one reply |
| XbridgeSlcan.StreamIsTransmitted | src/applications/xbridge/src/xbridge_can.c:278-405 | for any list of frames and any cutting into packets every frame is transmitted once, in order |
| XbridgeSlcan.FrameArrivesIff | src/applications/xbridge/src/xbridge_can.c:345-382 | what the receiver hands on for the printed bytes is the frame iff it is no remote frame and a standard id has 12 bits |
| XbridgeSlcan.AlwaysProper | src/applications/xbridge/src/xbridge_can.c:278-320 | whatever bytes arrive the line stays in its buffer and every transmit request is well formed |
| XusbipDevlist.Writer.EncodeDevice | src/applications/xusbip/src/xusbip_proto.c:173-228 | 312 bytes appended or failure, exactly by room |
| XusbipDevlist.EncodeDevlistReply | src/applications/xusbip/src/xusbip_proto.c:280-328 | succeeds iff the buffer holds the reply and then writes exactly it |
| XusbipDevlist.ReplySizeExact | src/applications/xusbip/src/xusbip_proto.c:299-327 | the reply is 12 bytes, 312 per device and 4 per interface |
| XusbipDevlist.ReplyRoundTrip | src/applications/xusbip/src/xusbip_proto.c:280-328 | a decoder following the wire structures recovers the same list, for every list |
| XusbipDevlist.CursorExact | src/applications/xusbip/src/xusbip_proto.c:67-97 | the wrapping room test is exact for every cursor iff the buffer is below 2^32 - 1020 bytes |
| XusbipUrb.Table.Submit | src/applications/xusbip/src/xusbip_urb.c:58-89 | the first free slot takes the request, or the table is full |
| XusbipUrb.Table.Complete | src/applications/xusbip/src/xusbip_urb.c:91-112 | the slot is freed, or the error |
| XusbipUrb.Table.FindBySeqnum | src/applications/xusbip/src/xusbip_urb.c:114-134 | the first pending slot with the number |
| XusbipUrb.Table.RequestUnlink | src/applications/xusbip/src/xusbip_urb.c:136-155 | the first submitted slot with the number is marked |
| XusbipUrb.Table.Release | src/applications/xusbip/src/xusbip_urb.c:157-173 | the slot is cleared unconditionally |
| XusbipUrb.Table.FindExpired | src/applications/xusbip/src/xusbip_urb.c:175-220 | an expired entry of greatest age, the first of equals, iff any is expired |
| XusbipUrb.MapMeaning | src/applications/xusbip/src/xusbip_urb.c:58-155 | with unique numbers the table is a map of as many entries as slots in use |
| XusbipUrb.FindMap | src/applications/xusbip/src/xusbip_urb.c:114-134 | finding a number agrees with the map |
| XusbipUrb.SubmitMap | src/applications/xusbip/src/xusbip_urb.c:58-89 | a submit with a new number adds one entry, failing iff all slots are in use |
| XusbipUrb.RunRefines | src/applications/xusbip/src/xusbip_urb.c:58-173 | every run with fresh numbers gives the results and leaves the state of a registry that has requests with their statuses and slot numbers of its own, and never reads the table |
| XusbipUrb.SubmitKeepsUnique | src/applications/xusbip/src/xusbip_urb.c:69-86 | an accepted request keeps the numbers unique exactly when its number is not pending |
| XusbipUrb.UniqueIffFresh | src/applications/xusbip/src/xusbip_urb.c:58-173 | over every run the numbers stay unique exactly when every accepted request had a number not pending |
| XusbipUrb.DuplicateHidesRequest | src/applications/xusbip/src/xusbip_urb.c:69-155 | on any table with a number twice, find returns the lower slot and unlink marks the older request only if that slot is the lower one and still submitted |
| XusbipUrb.AgeIsElapsed | src/applications/xusbip/src/xusbip_urb.c:201 | across any clock wrap the age is the elapsed time iff that is below 2^32 ms |
| XusbipUrb.OldestInTrueTime | src/applications/xusbip/src/xusbip_urb.c:185-220 | the entry returned has outlived its timeout and none that has was submitted earlier, in true time |

## Left out

- XtraceSession.HostReadsTheLog: rings of at most 2^28 bytes, because the reader refuses a length prefix of five bytes; `XtraceOverwrite.HostReadsIff` has the same limit.
- XtraceOverwrite.OverwriteCounts: aligned overwrites; for a ring that starts inside a record, `XtraceSession.NothingLostSilently` gives the condition on the charged count itself.
- XtraceSession.StreamIsLogIff: what the count loop charges for a ring that starts inside a record depends on the memory around the ring and is a parameter of the step here; `XtraceMachine.RunOfMachine` fills it in from that memory.
- XtraceSession.ChargeIsCount: rings above 2 GiB, on which the loop's positions wrap before its distance does; a session charges its records there too, so what the theorems on sessions say of counts is about the code up to 2 GiB only.
- XtraceRecorder.Recorder.RecordCount: calls on which the source's loop does not end are excluded; `XtraceCount.EndsIff` says which, and `XtraceMachine.PerformAll` makes any calls without that hypothesis. Of the five values next to the limit of `XtraceMachine.NoCallHangs` nothing is said but `XtraceCount.EndsIff`.
- XtraceMachine.Perform: a drain moves the read position by any number of bytes; the transport's part in it is `XtraceRecorder.Recorder.Flush`.
- XtraceMachine.NoCallHangs: the buffer is cleared before it is handed over, as static memory is; the recorder does not clear it.
- XtraceRecorder.Recorder.EmitRecord: event names of 4 GiB and more, whose length would wrap the size computation, are not modelled.
- XtraceFlush.FlushFramed: transports that take every write whole; for others `XtraceCobs.CutDelivers` says what each cut costs.
- XtraceCpuLoad.CpuLoadCounters: percentages are exact rationals, not rounded to one decimal.
- XtraceNesting.TraceNests: slice times are whole microseconds; other tracks appear only as events that begin or end nothing on the task's track, which holds while task numbers stay below 0x1000 and the identifiers of the tracks do not meet.
- XtraceNesting.RunningEntriesNest: one way only; the exact condition on the timeline is that of `XtraceNesting.TraceNests`.
- XtraceTasks.TimelineTrueIff: traces in time order, as the decoder's clock produces them between restarts.
- MisraElement.WalkValueElements: flexible arrays, whose children are created while walking, are not modelled.
- MisraRecursion.Misra17_2: tokens carry the function they call or stand for; how the analyser resolves names is not modelled.
- XlogicCapture.CaptureDelivered: the co-processor's program is not part of the repository; that it replaces the old status first, then samples, and after DONE leaves count and ring alone is a hypothesis.
- XlogicSump.TransportContext.ProcessRx: sends succeed; a failed reply drops the rest of the packet in the source.
- XbridgeSlcan.PrintFrame: a received frame with a length above 8, which the source prints without a test into its 30 bytes, is excluded.
- XbridgeSlcan.Channel.OnUsbReceive: replies are always sent; a failed reply drops the rest of the packet in the source.
- XbridgeSlcan.Channel.Poll: a failing receive or send, which ends the poll early, is not modelled.
- XusbipDevlist.EncodeDevlistReply: buffers of 2^32 - 1020 bytes and more, where the cursor arithmetic wraps, are excluded; `XusbipDevlist.CursorExact` shows that bound is sharp.
- XbridgeUart.Bridge.Poll: a read that returns more than the 64 bytes asked for is excluded.
- Task and object names, priorities, statistics and metadata events of the decoder: dictionaries and printing.
- XtraceRecorder.Recorder.FilterDisableEvent: the mask of 8 words is a list of 256 booleans.
- Protobuf encoding of the Perfetto packets beyond the varint writer, and the other exporters: formats without further state.
- The remaining MISRA rules, the initialiser parser of the 9.x rules, and the Cppcheck data readers: rule lists over an external tool's output.
- The other bridges of xBRIDGE, the import reply and URB headers of xUSBIP: dispatch and field copies like those modelled.
- Boot policy, hand-off, storage, file system, board support and hardware drivers: register writes and forwarding.
