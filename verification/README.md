# Verification of the Modbus master and slave

A Dafny model of the core of this repository and proofs about it. `dafny verify dfyconfig.toml` checks
everything.

The master reads a list of Modbus actions from its configuration, schedules them by due date, and runs
them one at a time over TCP or a serial line, moving data between devices and the process image. The
slave answers requests from register tables of its own, which it keeps in step with the process image.

| file | what it models |
|---|---|
| `TimeSpec.dfy` | times in seconds and nanoseconds, with aliasing |
| `DueDates.dfy` | the queue of due dates as a value: order, counts, windows, conservation |
| `Scheduler.dfy` | the event list updated in place, the minimal interval, the timeout and the gaps |
| `Lateness.dfy`, `Sums.dfy` | the clocked dispatch loop: bounded lateness, recovery, overload |
| `ModbusConfig.dfy`, `ProcessImage.dfy`, `Transactions.dfy` | actions, the image, and one transaction |
| `Effects.dfy` | what a transaction does for each function code, in the image and in its request |
| `StatusBytes.dfy` | sticky status bytes and their resets over whole runs |
| `Passes.dfy`, `Connections.dfy`, `MasterThread.dfy` | passes and connections as values, and the thread that follows them |
| `SlaveSockets.dfy`, `SlaveRegisters.dfy` | the slave's descriptor sweep, and its table as a cache of the image |
| `ConfigKeys.dfy`, `ActionList.dfy`, `SectionExtent.dfy`, `ParsingErrors.dfy`, `Widths.dfy` | keys, action list and section layout of the configuration |
| `ParsingRules.dfy` | the rules for accepting actions as a table, and the meaning of the outcome |

A run of the scheduler is a function of the intervals and the base, the time of initialisation plus one
second. `DueDates.QueueAt` is the queue after k dispatches and `Scheduler.EventList` is proved to go through
exactly these queues. A connection (`Connections.Connection`) adds what the world contributes: the bytes
that others write to the image between two passes and during each sleep, the outcome and the duration of
each transaction. `MasterThread.Session` is proved to go through the states of its connection, so the
results about due dates, lateness, status bytes and failures hold of the loop itself; `Connections.Story`
strings the connections of a thread together. Rates and mean times are exact (`real`); `Load(w, intervals)`
is the mean number of due dates in w nanoseconds.

Results that may surprise:

- The scheduler compares due dates only, but the queue is always sorted by due date, then interval
  descending, then list position. The order is not inductive alone (`DueDates.Invariant`).
- For constant transaction times, lateness is bounded if and only if transaction time plus gap does not
  exceed the mean time between due dates. Overdue actions are never skipped, as the remark at README.md:22-30
  of the repository says; the recovery time from such a backlog is bounded by `Lateness.BacklogRecovery`.
- Coils are not stored at consecutive bits unless the block starts at bit 0 or fits in its first byte: the
  bit rotates within its byte. The map is injective all the same, so round trips are exact.
- The status of a failed transaction is between 1 and 15 for libmodbus's first fifteen errors, which the
  comment at src/ComAndDataProcessor.c:294-296 is about, and the number of the system's error otherwise, such
  as 110 for a timeout; only two errors of the same number cannot be told apart.
- A reset that is requested while the master sleeps is not consumed by the pass that sleeps, even if it is
  for the action about to be run, but by the next pass that checks it (`Connections.PassResets`).
- A slave section whose only variable lies at offset 0 is rejected, as is an empty one. If the last variable
  of a section is not of whole bytes, the extent does not cover it to the end.
- The identifier of a skipped action is kept for the next key without one. That is harmless, since the
  next action is then skipped for the same reason (`ActionLists.ParseKey`).
- The bit offset of a status reset is not brought below 8 as that of coils is, and bit offsets
  beyond 255 are cut before they are normalised.

Where the code and its documentation differ, the model follows the code:

- `timespec_diff` is documented to be negative exactly if the minuend is smaller (src/Scheduler.c:391). That
  fails for differences of 2^31 seconds and more, in the cases that `TimeSpecs.DiffSignRight` describes.
- Parsing the action list returns the number of actions, not 0 (src/piConfigParser/piConfigParser.c:1090).
- A failed initialisation of the scheduler leaves 0xf0 in the master's status byte, not the 0x10 of the
  repository's README.md:37.

## Model

| member | source | states |
|---|---|---|
| `TimeSpecs.TimespecAdd` | src/Scheduler.c:422-436 | the sum is exact in nanoseconds and normalised, also when the result is one of the operands |
| `TimeSpecs.TimespecDiff` | src/Scheduler.c:394-411 | the difference is exact and normalised, also when aliased; the returned sign is the seconds of the difference cut to 32 bits |
| `TimeSpecs.NormalForm` | src/Scheduler.c:294-320 | normalised pairs represent nanoseconds uniquely, and comparing seconds and then nanoseconds compares the times |
| `TimeSpecs.DiffSignRight` | src/Scheduler.c:394-411 | exactly when the returned sign tells which time is earlier, for any difference: the seconds lie in an even block of 2^31 if not negative, in an odd one otherwise |
| `TimeSpecs.DiffSignRange` | src/Scheduler.c:394-411 | for times less than 2^32 seconds apart the sign is right if and only if they are less than 2^31 seconds apart |
| `TimeSpecs.DiffSignWrong` | src/Scheduler.c:394-411 | two times 2^31 seconds apart for which the sign is wrong |
| `Scheduler.SchedulerEvent.AddInterval` | src/Scheduler.c:187-188 | the due date grows by the interval, in place |
| `Scheduler.ModbusEvent.Take` | src/Scheduler.c:183-184 | the event handed out carries the action and the due date of the list entry |
| `Scheduler.EventList.InsertEventByDueDate` | src/Scheduler.c:294-320 | the list becomes the one with the event put behind all that are due no later, in front of the first that is due later; no event is lost or copied |
| `Scheduler.EventList.AddEvent` | src/Scheduler.c:76-85 | adding to an empty list and inserting agree |
| `Scheduler.NewEvent` | src/Scheduler.c:66-74 | a new event is first due one interval and one second after now, whatever the split into seconds and nanoseconds |
| `Scheduler.EventList.InitScheduler` | src/Scheduler.c:41-107 | fails exactly for an empty action list; otherwise the queue is the initial one of the intervals, based one second after now |
| `Scheduler.EventList.GetNextEvent` | src/Scheduler.c:130-140 | fails exactly for an empty queue and leaves it alone; otherwise as below |
| `Scheduler.EventList.DetermineNextEvent` | src/Scheduler.c:177-191 | hands out the head with its due date and puts it back one interval later; nothing else in the queue changes |
| `Scheduler.EventList.GetMinimalInterval` | src/Scheduler.c:332-348 | the result is the minimum of the intervals, in spite of the 32-bit sign test and the seed; the seed for an empty list |
| `Scheduler.EventList.GetMinimalEventOffset` | src/Scheduler.c:362-381 | the offset is the TCP gap of the intervals in the queue, in normalised form |
| `Scheduler.EventList.GetRtuEventOffset` | src/ModbusMasterThread.c:421-435 | the offset is the longest one of which four for each action fit the minimal interval |
| `Scheduler.HalvedTimeout` | src/ModbusMasterThread.c:142-153 | the timeout is half the minimal interval in whole microseconds, with microseconds below a million, and one microsecond instead of zero |
| `Scheduler.TcpGapIsLargest` | src/Scheduler.c:369-379 | four gaps per dispatch fit the due dates, and no longer gap does |
| `Scheduler.RtuGapIsLargest` | src/ModbusMasterThread.c:427-435 | an offset fits the minimal interval four times for each action if and only if it is at most the serial gap |
| `Scheduler.RtuGapWithinTcpGap` | src/ModbusMasterThread.c:427-435 | four gaps for every action fit the shortest interval, and the serial gap never exceeds the TCP gap |
| `Scheduler.RtuGapLoad` | src/ModbusMasterThread.c:427-435 | so four serial gaps per dispatch fit the due dates as well |
| `Scheduler.GapOfInitial` | src/ModbusMasterThread.c:167 | the gap does not depend on the order in which the list was built |
| `DueDates.InsertSplits` | src/Scheduler.c:294-320 | insertion keeps the list and puts the new entry behind everything due no later |
| `DueDates.StepKeepsOrder` | src/Scheduler.c:177-191 | a dispatch keeps the tie-break order together with the two conditions that make it inductive |
| `DueDates.InvariantHolds` | src/Scheduler.c:41-191 | the invariant holds after any number of dispatches |
| `DueDates.TieBreakOrder` | src/Scheduler.c:177-191 | in every reachable state the queue is strictly sorted by due date, then longer interval first, then list position, and nobody waits longer than its interval behind the head |
| `DueDates.QueueContents` | src/Scheduler.c:177-191 | the queue holds exactly the next due date of each action |
| `DueDates.NoDrift` | src/Scheduler.c:67-85 | the k-th dispatch of an action is due exactly k intervals after the base |
| `DueDates.DispatchIsDue` | src/Scheduler.c:177-191 | what is dispatched is always the next undispatched due date of its action |
| `DueDates.HeadFirst` | src/Scheduler.c:177-191 | no undispatched due date precedes the one dispatched |
| `DueDates.TriggersNonDecreasing` | src/Scheduler.c:130-191 | due dates handed out never decrease over a run |
| `DueDates.DispatchesOrdered` | src/Scheduler.c:130-191 | dispatches happen in strictly increasing tie-break order |
| `DueDates.DispatchedExactlyIfBefore` | src/Scheduler.c:130-191 | a due date has been dispatched if and only if it precedes the current one in that order: a run enumerates all due dates, in order, omitting none |
| `DueDates.ExactCount` | src/Scheduler.c:181-190 | when exactly the due dates up to t are dispatched, each action was dispatched floor((t - base) / interval) times |
| `DueDates.CountsAddUp` | src/Scheduler.c:130-191 | the counts of all actions add up to the number of dispatches |
| `DueDates.CountInWindow` | src/Scheduler.c:177-191 | an action is dispatched at most once more than its interval fits between two due dates |
| `DueDates.DispatchesBetween` | src/Scheduler.c:177-191 | the dispatches between two due dates number at most their distance times the rate, plus one per action |
| `DueDates.DispatchesBy` | src/Scheduler.c:177-191 | and no fewer than the distance from the base demands |
| `DueDates.ConsecutiveDispatches` | src/Scheduler.c:177-191 | between two consecutive dispatches of an action there are at most sum over the others of floor(I / I_b) + 1 others |
| `DueDates.EveryDueDateServed` | src/Scheduler.c:177-191 | every due date is dispatched within a number of dispatches that follows from the intervals |
| `DueDates.EqualIntervalsAlternate` | src/Scheduler.c:294-320 | actions with equal intervals take turns in list order |
| `DueDates.Rebased` | src/ModbusMasterThread.c:128-135 | a queue initialised at another time gives the same run with every due date moved |
| `DueDates.ActionsConserved` | src/Scheduler.c:41-191 | the multiset of actions and intervals in the queue never changes |
| `Lateness.NextStart` | src/ModbusMasterThread.c:217-233 | a transaction starts on its due date or right after the previous pass |
| `Lateness.StartIsEarliest` | src/ModbusMasterThread.c:217-233 | a transaction starts as soon as the resets are done, it is due and the gap since the end of the last one is over |
| `Lateness.BusyPeriod` | src/ModbusMasterThread.c:177-233 | every transaction belongs to a busy period that began on a due date |
| `Lateness.BoundedLateness` | src/ModbusMasterThread.c:177-233 | if no pass takes longer than the mean time between due dates, lateness never exceeds n-1 passes once a transaction was on time |
| `Lateness.LatenessGrowth` | src/ModbusMasterThread.c:177-233 | if no pass takes longer than the mean time between due dates, lateness never grows by more than n-1 passes, however late the run began |
| `Lateness.BacklogRecovery` | src/ModbusMasterThread.c:217-233 | with strictly shorter passes, from any lateness a transaction is on time again within a number of dispatches computed from lateness and intervals |
| `Lateness.RecoveryBoundExists` | src/ModbusMasterThread.c:217-233 | such a number exists for every lateness |
| `Lateness.RecoversForGood` | src/ModbusMasterThread.c:217-233 | after the recovery the lateness stays within the bound of an undisturbed run |
| `Lateness.OverloadDiverges` | src/ModbusMasterThread.c:217-233 | if every transaction takes at least a cost that together with the gap exceeds the mean time between due dates, lateness exceeds every bound |
| `Lateness.SchedulableIff` | src/ModbusMasterThread.c:177-233 | for constant transaction times, however late the first one is, lateness is bounded if and only if a pass is no longer than the mean time between due dates |
| `ProcessImages.PutBitThenBit` | src/ComAndDataProcessor.c:71-75 | a bit set in the image is seen at its place and changes no other bit |
| `ProcessImages.MaskIsShift` | src/ComAndDataProcessor.c:73 | bits are counted from the least significant one |
| `ProcessImages.AddressIsCut` | src/ComAndDataProcessor.c:72 | the address of a bit access is what 16 bits leave of the offset |
| `ProcessImages.ProcessImage.Write` | src/ComAndDataProcessor.c:121-123 | a run of bytes is written entirely or not at all |
| `ProcessImages.ProcessImage.Read` | src/ComAndDataProcessor.c:233 | a run of bytes is read entirely or not at all |
| `Transactions.ProcessModbusAction` | src/ComAndDataProcessor.c:48-307 | the new image, the return value and the request sent are those of the transfer for the function code, with the error report |
| `Transactions.StoreCoilsFromBuffer` | src/ComAndDataProcessor.c:69-81 | all coils are stored, up to the first whose byte is not accessible |
| `Transactions.LoadCoilsIntoBuffer` | src/ComAndDataProcessor.c:206-219 | the buffer holds the bits of all coils, if all are accessible |
| `Transactions.ReportError` | src/ComAndDataProcessor.c:319-324 | the status byte holds the code and nothing else changes |
| `Transactions.CoilMapInjective` | src/ComAndDataProcessor.c:72-73 | no two coils share a bit of the image, for any start bit |
| `Transactions.CoilMapLinear` | src/ComAndDataProcessor.c:72-73 | a coil lies at its linear bit address if and only if its bit does not rotate past the end of the byte and the byte has a 16-bit address |
| `Transactions.CoilBlockLinear` | src/ComAndDataProcessor.c:69-81 | a block of coils lies linearly if and only if it starts at bit 0 or ends within its first byte, and ends within 16-bit addresses |
| `Transactions.StoreCoilsFrame` | src/ComAndDataProcessor.c:69-81 | bits outside the map keep their values |
| `Transactions.StoreCoilsStored` | src/ComAndDataProcessor.c:69-81 | each stored coil is found at its bit |
| `Transactions.CoilRoundTrip` | src/ComAndDataProcessor.c:58-228 | reading coils into the image and writing them with the same parameters sends the same values |
| `Transactions.RegisterRoundTrip` | src/ComAndDataProcessor.c:110-246 | the same for registers, byte for byte |
| `Transactions.TransactionFrame` | src/ComAndDataProcessor.c:48-307 | a transaction changes its data area only, and its status byte if and only if it failed, to the mapped code |
| `Effects.BitReadStores` | src/ComAndDataProcessor.c:58-108 | after function codes 1 and 2 the i-th value read is found at byte i/8 from the start, in bit (start bit + i) modulo 8 |
| `Effects.BitReadIsLinear` | src/ComAndDataProcessor.c:69-81 | as long as it does not rotate, at the i-th bit after the start |
| `Effects.BitReadFrame` | src/ComAndDataProcessor.c:58-108 | and no other bit changes |
| `Effects.RegisterReadStores` | src/ComAndDataProcessor.c:110-151 | after function codes 3 and 4 the bytes read replace those from the start on, if all are in the image |
| `Effects.ReadRequest` | src/ComAndDataProcessor.c:61-117 | a read asks for the configured count from one below the configured register on, with the action's function code |
| `Effects.ShortAnswer` | src/ComAndDataProcessor.c:65-68 | a short answer changes nothing |
| `Effects.BitWriteSends` | src/ComAndDataProcessor.c:173-228 | function codes 5 and 15 send the bits from where a read would store them, to one below the configured register |
| `Effects.BitWriteStops` | src/ComAndDataProcessor.c:187-199 | nothing is sent if one of the coils cannot be read from the image |
| `Effects.RegisterWriteSends` | src/ComAndDataProcessor.c:153-246 | function codes 6 and 16 send the bytes from the start on, or nothing if they cannot be read |
| `Effects.SameRegister` | src/ComAndDataProcessor.c:61-245 | a read and a write of the same configured register mean the same one in the device |
| `Effects.ReportStores` | src/ComAndDataProcessor.c:248-270 | the answer to function code 17 is stored from the start on |
| `Effects.OtherCodes` | src/ComAndDataProcessor.c:272-275 | other function codes do nothing and are no failure |
| `Effects.StatusNumbers` | src/ComAndDataProcessor.c:294-301 | libmodbus's n-th error leaves status n, and an error of the system its own number |
| `Effects.AllowedCounts` | src/ComAndDataProcessor.c:60-250 | which counts each function code allows |
| `Transactions.TimeoutStatus` | src/ComAndDataProcessor.c:289-302 | a transaction that timed out leaves 110 in its status byte |
| `Transactions.StatusInLibmodbusRange` | src/ComAndDataProcessor.c:294-301 | among the errors of the system and of libmodbus, the status lies between 1 and 15 exactly for the first 15 of either |
| `Transactions.StatusAmbiguous` | src/ComAndDataProcessor.c:294-301 | two errors share a status exactly if they are a system error and libmodbus's error of the same number |
| `StatusBytes.ResetActionStatus` | src/ComAndDataProcessor.c:336-367 | a set reset bit clears the status byte and itself; the result tells whether the accesses succeeded |
| `StatusBytes.ResetStops` | src/ComAndDataProcessor.c:344-357 | without a request, or if the status byte cannot be cleared, nothing changes |
| `StatusBytes.ChannelsAre` | src/ComAndDataProcessor.c:379-382 | the reset of an action is its configured bit, the master's is bit 0 |
| `StatusBytes.EventEffect` | src/ComAndDataProcessor.c:289-367 | what one event, a check of resets, a transaction or a write by others, does to one channel: status byte and pending reset |
| `StatusBytes.PendingIsRequested` | src/ComAndDataProcessor.c:336-367 | over whole runs, with others writing between any two events, the reset bit in the image tells whether a reset was requested and not yet consumed |
| `StatusBytes.StickyStatus` | src/ComAndDataProcessor.c:289-367 | over whole runs, with others writing between any two events, a status byte holds the code of the most recent failure since the last consumed reset, or zero; no success clears it |
| `StatusBytes.ResetsConsumed` | src/ModbusMasterThread.c:181-189 | after a check no reset is pending of a channel that was checked, and the requests of the others are untouched |
| `Passes.PassHappens` | src/ModbusMasterThread.c:177-229 | a pass is a write by others, the check of resets, a write by others during the sleep, and the transaction |
| `Passes.PassEffect` | src/ModbusMasterThread.c:181-229 | after a pass a reset is pending if and only if it was requested since the check, or was pending at the check and not looked at |
| `Passes.HistoryOfValid` | src/ModbusMasterThread.c:177-281 | everything that happens in any number of passes is possible, if others do not write to the status bytes |
| `Connections.HistoryStep` | src/ModbusMasterThread.c:177-281 | one pass, with what others write before it and during its sleep, turns the image of a run into that of the run with one pass more |
| `Connections.ErrorsAreConsecutive` | src/ModbusMasterThread.c:235-280 | the error counter is the length of the current run of failures |
| `Connections.AbandonedAfter101` | src/ModbusMasterThread.c:245-255 | the counter first exceeds its limit exactly at the first 101st failure in a row |
| `Connections.GivenUpAt101` | src/ModbusMasterThread.c:245-255 | a connection is given up exactly over TCP, when 101 transactions in a row have failed for the first time; until then, and on a serial line, it runs |
| `Connections.KeepOrGiveUp` | src/ModbusMasterThread.c:235-280 | each pass keeps the connection or is the one at which it is given up |
| `Connections.GapFits` | src/ModbusMasterThread.c:421-435 | over either medium four gaps per dispatch fit the due dates |
| `Connections.GapOfConnection` | src/ModbusMasterThread.c:167 | the gap of a connection is the longest that fits, over either medium |
| `Connections.IntervalsAre` | src/Scheduler.c:68-69 | the scheduler's intervals are the configured microseconds |
| `Connections.MasterLateness` | src/ModbusMasterThread.c:177-233 | with transactions of at most three gaps and resets of at most one, every transaction of a connection starts within (n-1) times four gaps of its due date, besides what the first one was late |
| `Connections.FirstOnTime` | src/Scheduler.c:70-74 | the extra second makes the first transaction punctual, if setting up takes no longer than that and an interval |
| `Connections.StartsBounded` | src/ModbusMasterThread.c:177-233 | so all recorded starts of such a connection lie within (n-1) times four gaps of their due dates |
| `Connections.HistoryValid` | src/ModbusMasterThread.c:177-281 | the events of a connection form a possible run, given only that others do not write to the status bytes |
| `Connections.MasterStatus` | src/ModbusMasterThread.c:177-281 | in every state of a connection the status bytes follow the sticky rule, given only that others do not write to them |
| `Connections.CheckedChannels` | src/ModbusMasterThread.c:470-485 | a pass checks the dispatched action over TCP, every action on a serial line, and the master's own reset |
| `Connections.PassResets` | src/ModbusMasterThread.c:181-229 | after each pass of a connection, a reset is pending if and only if others requested it since the check, or it was pending at the check of other channels |
| `MasterThread.Session.ConsumeResets` | src/ModbusMasterThread.c:181-189 | the resets checked over TCP, and the master's own |
| `MasterThread.Session.ResetEveryAction` | src/ModbusMasterThread.c:470-485 | on a serial line every action's reset is checked, in queue order |
| `MasterThread.Session.AwaitStart` | src/ModbusMasterThread.c:217-221 | the start is the latest of now, the due date and the earliest start |
| `MasterThread.Session.Finish` | src/ModbusMasterThread.c:231-233 | the earliest next start is the end of the transaction plus the gap |
| `MasterThread.Session.Transact` | src/ModbusMasterThread.c:229-280 | the counter grows with a failure and is cleared by a success |
| `MasterThread.Session.RunPass` | src/ModbusMasterThread.c:177-281 | queue, clock, image and error counter after one pass of the loop, in which others write before the check of resets and during the sleep |
| `MasterThread.Session.RunConnection` | src/ModbusMasterThread.c:177-281 | the loop follows the run of its connection, its transactions start when that run says, and over TCP it ends exactly at the first 101st failure in a row |
| `MasterThread.Session.Connect` | src/ModbusMasterThread.c:127-175 | a connection starts with a fresh queue based on its own time, a zero counter, the timeout and gap for its intervals; without actions it reports an internal error |
| `MasterThread.ServeConnection` | src/ModbusMasterThread.c:380-569 | a whole connection, here on a serial line: it is well timed, given up only as it should, its transactions start within the lateness bound if they are brisk and set-up is in time, and image and clock are those of its run |
| `MasterThread.Serve` | src/ModbusMasterThread.c:112-283 | over all attempts to connect: each connection starts when and with the image with which the stages before it ended, with a fresh queue based on that time, and image and clock are those of the whole story; without actions the thread ends at the first connection with an internal error |
| `MasterThread.Refuse` | src/ModbusMasterThread.c:114-125 | a refused attempt is reported in the master's status byte and takes five seconds |
| `Connections.RecordGrows` | src/ModbusMasterThread.c:112-283 | a further attempt continues the story of the thread: its time, its image, and the link to what came before |
| `Connections.StoryValid` | src/ModbusMasterThread.c:112-283 | the events of a whole thread form a possible run, given only that others do not write to the status bytes |
| `Connections.ThreadStatus` | src/ModbusMasterThread.c:112-283 | the sticky rule holds over the whole life of the thread, across connections, given only that others do not write to the status bytes |
| `SlaveSockets.SlaveServer.VisitSocket` | src/ModbusSlaveThread.c:163-216 | accept and close change the watched set and its bound |
| `SlaveSockets.SlaveServer.RunSweep` | src/ModbusSlaveThread.c:160-217 | the sweep ends although its bound moves, and keeps the watched set within the bound |
| `SlaveSockets.SweepCorrect` | src/ModbusSlaveThread.c:160-217 | a sweep serves exactly the reported connections, each once, never the one accepted during it |
| `SlaveSockets.SweepBound` | src/ModbusSlaveThread.c:186-214 | the bound after a sweep: raised to a higher accepted descriptor, and lowered by one exactly if the connection with the highest one was closed |
| `SlaveSockets.RunsStayValid` | src/ModbusSlaveThread.c:139-218 | over any run the server stays watched and every watched descriptor is within the bound |
| `SlaveRegisters.Slave.ProcessRequest` | src/ModbusSlaveThread.c:346-384 | one request changes table, inputs and image as specified, and the result tells whether receiving or replying failed |
| `SlaveRegisters.Slave.WriteToImage` | src/piProcessImageAccess.c:29-57 | the whole holding table is copied to its place in the image |
| `SlaveRegisters.Slave.ReadFromImage` | src/piProcessImageAccess.c:78-105 | the input table becomes what the image holds |
| `SlaveRegisters.RegionIsLastWritten` | src/ModbusSlaveThread.c:346-384 | in every run the holding region of the image is the table as of the last answered write request |
| `SlaveRegisters.CoherentAfterWrite` | src/ModbusSlaveThread.c:372-377 | after an answered write request region and table agree in every register, whatever happened before |
| `SlaveRegisters.CoherenceLost` | src/ModbusSlaveThread.c:366-371 | agreement ends if and only if a request changed the table and its reply failed |
| `SlaveRegisters.CoherentIffUnchanged` | src/ModbusSlaveThread.c:346-384 | at any time region and table agree if and only if the table is what it was at the last answered write |
| `SlaveRegisters.InputsAreFresh` | src/ModbusSlaveThread.c:354-365 | input registers are answered from the image as it is at the request |
| `SlaveRegisters.TableRoundTrip` | src/piProcessImageAccess.c:43-47 | the bytes in the image determine the registers |
| `SlaveRegisters.RegisterBytes` | src/piProcessImageAccess.c:43-47 | register k lies at bytes 2k and 2k + 1 of its area, the low byte first |
| `SlaveRegisters.ReadsChangeNothing` | src/ModbusSlaveThread.c:372-377 | requests that do not write leave the table and the image as they are |
| `SlaveRegisters.WritesAreCopied` | src/ModbusSlaveThread.c:372-377 | every answered request that writes makes image and table agree |
| `SlaveRegisters.ValuesAreWritten` | src/ModbusSlaveThread.c:366 | a write changes exactly the registers it names, to its values, and none if it is not acceptable |
| `SlaveRegisters.WrittenIsReadBack` | src/ModbusSlaveThread.c:366 | what is written is read back, also by the request that writes it |
| `SlaveRegisters.MaskIsWritten` | src/ModbusSlaveThread.c:366 | a mask write takes each bit from the OR mask where the AND mask has none |
| `SlaveRegisters.ExceptionsAre` | src/ModbusSlaveThread.c:366 | which requests are answered by an exception |
| `ConfigKeys.FirstMatch` | src/piConfigParser/piConfigParser.c:1134-1141 | the leftmost match of the identifier pattern, or none if there is none |
| `ConfigKeys.IdentifierShape` | src/piConfigParser/piConfigParser.c:1136 | an identifier is at least one other character between two underscores |
| `ConfigKeys.IdentifierOfField` | src/piConfigParser/piConfigParser.c:1134-1141 | a key of a field has the identifier that follows the field's name |
| `ConfigKeys.OneFieldOfOneAction` | src/piConfigParser/piConfigParser.c:1421-1451 | no key belongs to two fields or to two actions |
| `ConfigKeys.MatchingField` | src/piConfigParser/piConfigParser.c:1413-1451 | the first key that starts with field and identifier, none without an identifier |
| `ConfigKeys.FoundFieldIsOwn` | src/piConfigParser/piConfigParser.c:1421-1451 | a lookup never returns a key of another action or of another field |
| `ActionLists.ActionFromGroup` | src/piConfigParser/piConfigParser.c:1125-1362 | an action depends on the settings with its own identifier only |
| `ActionLists.GetVariableParameters` | src/piConfigParser/piConfigParser.c:1471-1517 | the location of a variable, with the errors in the order of the checks |
| `ActionLists.ReadOffsets` | src/piConfigParser/piConfigParser.c:1520-1590 | how far the offsets of the first variable of a name could be read |
| `ParsingRules.FirstVariableCounts` | src/piConfigParser/piConfigParser.c:1525-1587 | of several variables of a name the first one counts |
| `ParsingRules.LocationFails` | src/piConfigParser/piConfigParser.c:1479-1516 | why a variable is not located, in the order of the checks |
| `ParsingRules.SecondSectionWins` | src/piConfigParser/piConfigParser.c:1492-1515 | a variable in both sections has the offsets of the second, as far as they can be read |
| `ActionLists.WrittenActionIsRead` | src/piConfigParser/piConfigParser.c:1145-1362 | round trip: an action written under its identifier is read back field by field, wherever its settings stand among others |
| `ActionLists.VariableIsLocated` | src/piConfigParser/piConfigParser.c:1471-1590 | a variable with a unique name lies at the device's offset plus its own |
| `ActionLists.CommandInLimits` | src/piConfigParser/piConfigParser.c:1159-1284 | the ranges of the numbers of an accepted action; milliseconds become microseconds without overflow |
| `ParsingRules.NamesOfTexts` | src/piConfigParser/piConfigParser.c:1159-1352 | under which names the fields of an action are looked up |
| `ParsingRules.FirstKeyCounts` | src/piConfigParser/piConfigParser.c:1433-1446 | of several keys of a field the first one counts, even if it is null |
| `ParsingRules.CommandOfRules` | src/piConfigParser/piConfigParser.c:1159-1284 | an action whose numbers pass has them, cut to the width of their fields |
| `ParsingRules.FirstRuleDecides` | src/piConfigParser/piConfigParser.c:1159-1284 | the first numeric field that is missing, out of range or refused decides: skipped, error of that field, program ended |
| `ParsingRules.VariablesDecide` | src/piConfigParser/piConfigParser.c:1286-1360 | once the numbers pass, a variable not named or not located makes the action be skipped, whatever the reason |
| `ParsingRules.PlacesOfAction` | src/piConfigParser/piConfigParser.c:1307-1362 | which variable gives which place of an accepted action |
| `ParsingRules.FateOfAction` | src/piConfigParser/piConfigParser.c:1159-1362 | exactly when an action is accepted, skipped, ends parsing with which error, or ends the program |
| `ActionLists.AcceptedInLimits` | src/piConfigParser/piConfigParser.c:1159-1362 | every accepted action has its fields in the ranges the rest relies on |
| `ActionLists.NormalisedKeepsAddress` | src/piConfigParser/piConfigParser.c:1307-1317 | for function codes 1, 2, 5 and 15 the bit is below eight, and the linear bit address is kept if and only if the bit offset is at most 255; for others it is only cut |
| `ActionLists.ResetWithinByte` | src/piConfigParser/piConfigParser.c:1361-1362 | exactly which accepted actions have a reset bit below eight |
| `ActionLists.ParseKey` | src/piConfigParser/piConfigParser.c:1127-1372 | an identifier left over from a skipped action has no effect: the next action without one is skipped too |
| `ActionLists.ParseActionList` | src/piConfigParser/piConfigParser.c:1095-1391 | the list, the count or error, and the image with the accepted actions' status bytes and reset bits cleared |
| `ParsingRules.KeyContributes` | src/piConfigParser/piConfigParser.c:1127-1142 | a key contributes if it begins with ActionId and has an identifier |
| `ParsingRules.OutcomeMeans` | src/piConfigParser/piConfigParser.c:1125-1390 | parsing succeeds exactly if no key ends it, with the number of all accepted actions; otherwise with the failure of the first that does |
| `ParsingRules.SkippedKeyIsIgnored` | src/piConfigParser/piConfigParser.c:1125-1390 | a key that is passed over makes no difference to the outcome |
| `ActionLists.ListReversesKeys` | src/piConfigParser/piConfigParser.c:1382-1388 | the list holds each accepted action once, in the reverse order of the keys |
| `ActionLists.AcceptedAscend` | src/piConfigParser/piConfigParser.c:1125-1390 | and the accepted keys are all of them, in order |
| `ActionLists.ListIsSchedulable` | src/piConfigParser/piConfigParser.c:1383-1388 | the count is the length of the list, the scheduler can run it, and the master's remaining demand is that function codes allow the counts |
| `ActionLists.InitialisedQuiet` | src/piConfigParser/piConfigParser.c:1364-1372 | parsing leaves every status byte zero and no reset pending, if they are disjoint |
| `SectionExtents.GetExtent` | src/piConfigParser/piConfigParser.c:717-801 | which extent or error results: from the lowest offset to the end of the first variable with the highest one |
| `SectionExtents.ExtentOfReadable` | src/piConfigParser/piConfigParser.c:764-800 | the extent of any variables that can be read, in numbers, rounding the last length down to bytes |
| `SectionExtents.LastVariableCovered` | src/piConfigParser/piConfigParser.c:781-795 | the last variable is covered if and only if its length is a multiple of eight bits |
| `SectionExtents.OffsetErrors` | src/piConfigParser/piConfigParser.c:732-762 | which error belongs to which unreadable offset |
| `SectionExtents.ExtentIsHull` | src/piConfigParser/piConfigParser.c:717-801 | the extent is the smallest interval that covers every variable |
| `SectionExtents.ExtentIgnoresOrder` | src/piConfigParser/piConfigParser.c:728-777 | it does not depend on the order of the variables |
| `SectionExtents.FailsIffAllZero` | src/piConfigParser/piConfigParser.c:764-783 | a well-formed section is rejected if and only if it is empty or its only variable lies at offset zero |
| `SectionExtents.LengthOfPacked` | src/piConfigParser/piConfigParser.c:795-800 | the length is the sum of the lengths if and only if there is no gap |

## Left out

- libmodbus, sockets, serial ports, threads and their priorities, syslog: what they yield is a parameter
  (outcomes, accepted descriptors, requests, failures).
- The clock: one monotonic clock, exact sleeping, no time spent outside transactions, resets and set-up; times
  are unbounded integers, with 64-bit seconds taken for granted.
- Double-precision rounding in the mean time between due dates: exact rationals instead.
- The 100 ms pause after a failed image access is part of a transaction's cost.
- Waiting for the serial device, and the early exits of the threads before the scheduler is set up.
- The TCP and the serial loop are one `Session` with a flag; on a serial line the count of failures is kept
  but nothing depends on it.
- The image driver is not part of this model. That an access outside the image fails without effect is an
  assumption, and so is the same for a bit beyond the seventh, of which the repository does not say what the
  driver does. The results about status bytes and resets require bits below 8 and do not depend on the latter.
- Passes.PassHappens: the resets that one pass checks are checked in one step, so writes by others in between
  are taken to come before the first check or after the last. `StatusBytes.Check` itself takes any channels, so
  the rules there cover writes between two checks. Writes within one check or one transfer are not modelled.
- Reading past the end of a key in prefix comparisons, and null names or cells in the arrays of variables: a
  key that is too short does not match, and such cells do not occur in a variable that is looked up.
- JSON, regular expressions and number conversion as such: settings are key and text, with the number the
  text denotes unless it is out of range; the first match of the identifier pattern is modelled exactly.
- An action under construction is a value; its fields are not assigned one by one, and abandoned ones
  leave no memory behind.
- Assertions end the program; builds without them are not modelled.
- What a function code allows as a count (`ModbusConfig.CountAllowed`) is not checked by the parser but
  asserted by the transaction, so the master's results require it.
- The master's own status variables and the device parameters of both configurations
  (`parse_device_modbus_configuration`), the list of devices, and the translation of errors.
- Of the slave's configuration, the sum of section start and device offset and the division of lengths by two.
- Coils and discrete inputs of the slave, which are never configured; the limit of descriptors in a set.
- Failed allocations, cleanup, the mutex, code under `#if 0` and the commented-out scheduler.
- SlaveRegisters.Slave.Reply: stands for libmodbus's part of a request, as sections 6.3, 6.4, 6.6, 6.12, 6.16
  and 6.17 of the MODBUS Application Protocol Specification V1.1b3 describe it.
