# Verified model of the broadcast monitor

The monitor listens to the broadcasts of a blockchain node and turns them into figures: forks and
missing block numbers, heartbeat and transaction drop rates. This project models the stateful parts
of that program in Dafny and proves what their figures mean over whole runs.

| file | models |
|---|---|
| `Clock.dfy`, `Sets.dfy`, `Arith.dfy`, `Block.dfy` | nanosecond times with Go's saturating subtraction, facts about finite sets and quotients, block records and the recorder's inputs |
| `BlockRing.dfy` | the 100-slot ring and the list of recent blocks it stands for |
| `BlockGaps.dfy` | the min/max scan over the rotated array, the walk between the two, the missing numbers |
| `ForkTrace.dfy` | the one-pass fork detector and a state-free description of the forks it should record |
| `BlockRecorder.dfy`, `BlocksSummary.dfy` | the block recorder and its summary as objects updated in place |
| `Heartbeat.dfy`, `HeartbeatRuns.dfy` | the heartbeat recorder, and what it reports over runs |
| `Transactions.dfy` | the transaction recorder's bitmap of minutes |
| `InfluxQueue.dfy` | the database write queue, with Adds between any two steps of a write |
| `TaskGroup.dfy` | the shutdown protocol of the task group |

Each object's methods are proved to follow a specification function (a ring step, a fork step, a
sweep); the lemmas about whole runs are about those functions. `Blocks` and `Group` carry a ghost
log of everything that happened to them, and `FollowsLog` says that their fields are where the run
of that log leads, so the run lemmas speak about the objects.

Times are whole nanoseconds since Go's zero time, `now` is a parameter of whatever reads the clock,
and drop rates are reals. Each recorder call is one atomic step; the queue and the task group are
split into the steps between which other goroutines can act. A block is *valid* when its number is
positive and its hash is not empty.

## Where the code departs from its intent

The model keeps the code as it is. Each departure is a lemma, with the exact condition where there
is one.

- `recorder/blocks.go:205` leaves the write position at 100 when slots 0 and 99 are both live, and
  the next block panics. `PanicIff`: any run whatsoever panics exactly when a block arrives after
  such a tick and no later tick has undone it. `BusyRunPanics`: 100 blocks within two hours, a tick
  and one more block suffice.
- `recorder/blocks.go:257-288` walks from the first lowest to the first highest number and no
  further. `GapReportIff`: over any number of valid blocks in any order, the report is right exactly
  when that stretch runs over no blank slot and every block repeats a number on it.
  `LateBlockReportedMissing`: a block after the highest that repeats no earlier number is reported
  missing although it was received. `AccountingIff`: a walk over blank slots counts one too many.
- `nodes/node/receiver.go:172-175` never sets the hash, so every block counts as empty:
  `UnhashedBlocksHideGaps` and `UnhashedBlocksHideForks` show that no gap and no fork is reported
  then, whatever is received.
- `recorder/blocks.go:127-131` ignores a block under the latest block's hash even when its number is
  higher: `TracksHighestIff`.
- `recorder/blocks.go:208-221` drops every fork up to the last expired one: `CleanupIsFilterIff`,
  `LiveForkLost`.
- `recorder/blocks.go:223-233` never empties the list of long confirmations, against their two-hour
  expiry. `ConfirmsHeldIff`: one is held exactly when some block has ever been 30 minutes late, so
  after one late block the monitor notifies at every check for ever (`CheckBlocks`).
- `recorder/transaction.go:105-106` moves the base time without shifting the bits.
  `CleanupKeepsMeaningIff`: after a cleanup the bits still stand for the minutes of their receipts
  exactly when it was not due, or found no receipt beyond the first minute.
- `recorder/transaction.go:102-103` zeroes the base when no bit is left, after which the recorder
  ignores every receipt and reports a full drop for ever: `CleanupKillsIff`, `DeadForever`,
  `OneReceiptDies`.
- `recorder/heartbeat.go:120` counts in 16 bits. `FalseAlarmIff`: regular beats give a false alarm
  exactly when the count has wrapped to a positive number below the expected one;
  `SteadyRunAlarms`: 65537 regular beats give one exactly when the time they cover holds two
  intervals, as with a beat every 0.05 seconds at an interval of 1 second, after 55 minutes.
  `SpacedBeatsNeverAlarm` bounds the rate below which none occurs.
- `recorder/heartbeat.go:135-163` forgets a beat before the creation that a cleanup removes before any
  summary: `SilenceCounts`.
- `db/influx.go:107-111` reads the length before taking the lock: `NothingLostIff`, `LossyRun`.
- `db/influx.go:128-133` puts the points of a failed write behind those that came during it:
  `FailureReorders`; without failures the order of arrival is kept (`FirstInFirstOut`).
- `db/influx.go:117-123` puts a whole batch back when the client library refuses one point of it.
  `StuckIff`: nothing can ever be delivered any more exactly when the next batch holds such a point.
- `tasks/task.go:18-19` registers a task inside its goroutine: `QuietIff`, `EarlySignalRun`.

## Model

| member | source | states |
|---|---|---|
| BlockRing.PutPushes | recorder/blocks.go:122-150 | storing a block at the write position appends it to the list of recent blocks and drops the oldest once there are 100, whatever the rotation |
| BlockRing.CleanupFilters | recorder/blocks.go:180-206 | with blocks in receive order and slots 0 and 99 not both less than two hours old, a cleanup leaves the suffix of the blocks less than 7,200,000,000,000 ns old, or everything when there is none, and the write position stays usable |
| BlockRing.CleanupMovesSpan | recorder/blocks.go:180-206 | for any contents, the slots from the first to the last that hold a block less than two hours old, before the first slot without number or hash, move to the front in order, the slots behind them become blank, and the write position follows them; with no such slot nothing changes |
| BlockRing.CleanupOverflowsIffSplit | recorder/blocks.go:122-125 | for any contents of the slots, the block after a cleanup panics if and only if slots 0 and 99 are both live |
| BlockRing.RingRefinesList | recorder/blocks.go:122-206 | over every run of valid blocks that are in receive order at each tick, with no tick finding slots 0 and 99 both live, the ring does not panic, its occupied slots are a prefix or all, and reading from the write position around gives the list of recent blocks, a suffix of the history |
| BlockRing.OrderedRingRefinesList | recorder/blocks.go:122-206 | the same for a history in receive order throughout |
| BlockRing.RingWritesNext | recorder/blocks.go:144-206 | under the same hypotheses, the write position is the count of adds since the last effective cleanup on top of what it kept, modulo 100 |
| BlockRing.AddsKeepTheLast | recorder/blocks.go:122-150 | without cleanups that list is the last min(100, n) blocks |
| BlockRing.PanicIff | recorder/blocks.go:122-206 | any run, of whatever blocks in whatever order, panics if and only if a tick finds a full ring whose first and last slot are both less than two hours old, and a block arrives before a later tick has undone it |
| BlockRing.PanicIffSplit | recorder/blocks.go:180-206 | when a block follows every tick, any run panics if and only if some tick finds slots 0 and 99 both live |
| BlockRing.BusyRunPanics | recorder/blocks.go:202-205 | from the start, 100 valid blocks, a tick within two hours of all of them and one more block panic |
| BlockGaps.FindBlockStartAndEnd | recorder/blocks.go:268-288 | among slot 0 and the slots up to the next one without number or hash, the first with the lowest and the first with the highest number |
| BlockGaps.SortArray | recorder/blocks.go:257-263 | the slots from the lowest to the highest, around the end of the array if need be |
| BlockGaps.MissingBlocks | recorder/blocks.go:290-308 | the number of distinct numbers, and the ascending list of those in between that do not occur |
| BlockGaps.AbsentIsExact | recorder/blocks.go:301-306 | that list is strictly ascending and holds exactly the numbers in range that are not there |
| BlockGaps.OrderedRingReport | recorder/blocks.go:257-308 | for any rotation of blocks in number order, ties included, the report has the true count and the true missing numbers |
| BlockGaps.GapReportOverRuns | recorder/blocks.go:247-308 | over every run with expiry, of valid blocks in number order, in receive order at each tick and with no split tick, the report is right about the recent blocks |
| BlockGaps.GapReportOfLastHundred | recorder/blocks.go:247-308 | over any number of adds of valid blocks in number order, through any number of wraps, it is right about the last min(100, n) blocks |
| BlockGaps.ForksToleratedBeforeWrap | recorder/blocks.go:257-308 | before the first wrap the report is right even with forks, if every block not above all earlier ones repeats a number in the ring |
| BlockGaps.GapReportWithForks | recorder/blocks.go:257-308 | the same over runs of up to 100 adds |
| BlockGaps.AccountingIff | recorder/blocks.go:257-308 | for any order of valid blocks, count plus missing numbers is highest minus lowest plus one, and one more exactly when the walk runs over blank slots |
| BlockGaps.AccountingOfAny | recorder/blocks.go:257-308 | for any contents whatever, count plus missing numbers exceeds that by exactly the numbers on the walk outside the scanned range, of which there are none when the first lowest is not after the first highest |
| BlockGaps.NoGapUnreported | recorder/blocks.go:290-308 | for any order of valid blocks, every number in range that is absent from the ring is reported missing |
| BlockGaps.ReportIsRightIff | recorder/blocks.go:257-308 | for any ring of valid blocks, the report is right if and only if, in slot order, the ring is full or the first lowest is not after the first highest, and every block repeats a number on the stretch between them |
| BlockGaps.GapReportIff | recorder/blocks.go:247-308 | the same over any number of valid adds in any order, as a condition on the received blocks |
| BlockGaps.GapReportIffOverRuns | recorder/blocks.go:180-308 | the same over runs with expiry, for valid blocks in receive order at each tick and no split tick, as a condition on the recent blocks in slot order |
| BlockGaps.OffStretchReportedMissing | recorder/blocks.go:290-308 | a block that repeats no number on that stretch is reported missing although it is in the ring |
| BlockGaps.LateBlockReportedMissing | recorder/blocks.go:265-288 | among up to 100 adds, a block after the first highest that repeats no earlier number is reported missing, if the lowest came before the highest |
| BlockGaps.UnhashedBlocksHideGaps | nodes/node/receiver.go:172-175 | blocks without a hash never expire, and the report always sees one block and no gap |
| ForkTrace.ForkBlocks | recorder/blocks.go:74-88 | a fork block is one below the highest so far, or equal to it under another hash |
| ForkTrace.MachineTracksHistory | recorder/blocks.go:65-131 | over every run of valid blocks whose hash fixes their number, ticks anywhere, the latest block carries the highest number and the hash of the last block that was not below, and the flag is set exactly when the last block was strictly below |
| ForkTrace.MachineRecordsTrace | recorder/blocks.go:90-109 | for such blocks, until the first tick the recorded forks are exactly those the trace describes, with begin, end and expiry |
| ForkTrace.TracksHighestIff | recorder/blocks.go:127-131 | the latest block carries the highest number after every step if and only if no higher block arrives under its hash |
| ForkTrace.TraceSpansUpward | recorder/blocks.go:100-109 | every fork begins at or below its end, and ends do not decrease |
| ForkTrace.TraceExpiresInOrder | recorder/blocks.go:104-108 | with blocks in receive order, expiry times do not decrease |
| ForkTrace.ForksAreSeparated | recorder/blocks.go:90-120 | between two forks a block at or above the first fork's end was seen, at the first fork's block or later |
| ForkTrace.CleanupIsFilterIff | recorder/blocks.go:208-221 | the cleanup drops exactly the expired forks if and only if no live fork precedes an expired one |
| ForkTrace.LiveForkLost | recorder/blocks.go:208-221 | the shortest run that loses a live fork: a second fork received with an earlier time, and a tick at which only that one has expired |
| ForkTrace.ForksAreRecent | recorder/blocks.go:208-221 | over every run of such blocks the list is a suffix of all forks ever opened |
| ForkTrace.TickDropsExpired | recorder/blocks.go:208-221 | with blocks in receive order a tick drops exactly the expired forks |
| ForkTrace.ForkListIsExact | recorder/blocks.go:90-131 | for such blocks in receive order the list is exactly the forks opened and not yet found expired |
| ForkTrace.UnhashedBlocksHideForks | nodes/node/receiver.go:172-175 | blocks without a hash never record a fork |
| BlockRecorder.Blocks.Add | recorder/blocks.go:55-63 | one call stamps the block and updates ring, detector and long confirmations as specified, and keeps the object on its log |
| BlockRecorder.Blocks.UpdateForkInfo | recorder/blocks.go:90-113 | a fork block opens a fork, goes on with one, or ends it |
| BlockRecorder.Blocks.ProcessForkBlock | recorder/blocks.go:65-71 | fork blocks update the detector, others clear its flag; while there is no latest block nothing is a fork |
| BlockRecorder.Blocks.AddBlock | recorder/blocks.go:122-150 | the block goes to the write position, which advances and wraps at 100 |
| BlockRecorder.Blocks.UpdateLatestBlock | recorder/blocks.go:127-131 | the latest block is replaced by one at or above it under another hash |
| BlockRecorder.Blocks.UpdateLongConfirmPeriodInfo | recorder/blocks.go:133-142 | a block is recorded exactly when it was received 1,800,000,000,000 ns or more after its generation, with its number, the time in between and an expiry two hours after its receipt |
| BlockRecorder.Blocks.FindLiveSpan | recorder/blocks.go:181-200 | the scan finds the first and the last slot less than two hours old before the first one without number or hash, or none |
| BlockRecorder.Blocks.CleanupExpiredBlocks | recorder/blocks.go:180-206 | the slots between them move to the front of a blank array, and the write position follows them |
| BlockRecorder.Blocks.CleanupExpiredForks | recorder/blocks.go:208-221 | what follows the last fork past its expiry remains |
| BlockRecorder.Blocks.CleanupExpiredLongConfirms | recorder/blocks.go:223-233 | what starts at the last entry before its expiry remains, and everything when there is none |
| BlockRecorder.Blocks.Expire | recorder/blocks.go:167-174 | one tick of the periodic remover runs the three cleanups and keeps the object on its log |
| BlockRecorder.Blocks.Summarize | recorder/blocks.go:247-255 | nothing before the first block; otherwise the gap report and the time since the block it starts from |
| BlockRecorder.Blocks.Summary | recorder/blocks.go:236-245 | when the log is in order, the gap report is right about the recent blocks and the forks are exactly those opened and not yet found expired; the duration is the time since the receipt of a lowest-numbered recent block |
| BlocksSummary.Summary.Valid | recorder/blocks.go:333-356 | asks for a notification if and only if there are missing blocks, forks or unreported long confirmations; if nothing is missing it then leaves exactly the unreported ones, in order and with only the mark changed, and otherwise leaves the list as it was |
| BlocksSummary.NotifiedOnce | recorder/blocks.go:333-356 | over any number of calls, missing blocks and forks notify every time, long confirmations only the first |
| BlockRecorder.CheckBlocks | nodes/node/checker.go:44-48 | with the log in order, the monitor is notified if and only if the recent blocks lack a number, a fork has opened and has not been found expired, or some block has ever been received 30 minutes or more after its generation; with no hash on any block, if and only if some block has ever been |
| BlockRecorder.ConfirmsHeldIff | recorder/blocks.go:133-142 | over every run, a long confirmation is held if and only if some block, at any time in the past, was received 30 minutes or more after its generation |
| BlockRecorder.HeldAreUnreported | recorder/blocks.go:133-142 | over every run the recorder's long confirmations stay unreported: only summaries mark them |
| Heartbeat.Recorder.Add | recorder/heartbeat.go:70-78 | a beat is held under its receive time, once however often it is added, next to all held before |
| Heartbeat.Recorder.CleanupExpired | recorder/heartbeat.go:102-114 | exactly the beats more than two hours old go, whatever the order of the visit |
| Heartbeat.Recorder.DurationFromEarliestReceive | recorder/heartbeat.go:141-163 | the time from the earliest known time to the latest, or to now exactly when the latest is an interval or more ago |
| Heartbeat.Recorder.Summary | recorder/heartbeat.go:117-139 | that duration, the 16-bit count of held beats and the missing share of the expected count; the earliest time is remembered and no beat is touched |
| Heartbeat.DropRate | recorder/heartbeat.go:165-181 | lies in [0, 1), is 0 exactly when nothing is held or nothing more is expected, and otherwise is the missing share of the expected count |
| Heartbeat.ExpectedAtLeastIff | recorder/heartbeat.go:169-172 | at least n beats are expected if and only if the duration and two hours both hold n intervals |
| Heartbeat.ExpectedIsWholeIntervals | recorder/heartbeat.go:169-172 | the expected count is the number of whole intervals in the nanoseconds covered, cut off at two hours |
| HeartbeatRuns.HeldBeats | recorder/heartbeat.go:70-139 | under any interleaving, every beat of the last two hours is held, nothing else than beats is, and the earliest time is the creation or an earlier beat |
| HeartbeatRuns.HeldIsExact | recorder/heartbeat.go:70-114 | over any run, with times in whatever order, the held beats are those that no later cleanup found more than two hours old |
| HeartbeatRuns.NoFalseAlarm | recorder/heartbeat.go:116-181 | with fewer than 65536 beats held, regular beats never give a drop rate above 0, within two hours and beyond, under any interleaving of beats, summaries and cleanups |
| HeartbeatRuns.SilenceCounts | recorder/heartbeat.go:135-163 | over any run, once the latest of the creation and all beats is an interval or more ago, the duration runs from the earliest known time to now; that is the first of the creation and all beats if and only if it is the creation, still held, or was held at a summary |
| HeartbeatRuns.SilenceIff | recorder/heartbeat.go:116-181 | after such a silence, with the first time not forgotten, a drop is reported if and only if the 16-bit count of the beats no cleanup has removed is positive and the time since the first, cut off at two hours, holds more intervals than that |
| HeartbeatRuns.SilentNodeReported | recorder/heartbeat.go:117-181 | one beat a minute after the creation and a summary nineteen minutes later, at 60 seconds: duration 20 minutes, drop rate 0.95 |
| HeartbeatRuns.SpacedBeatsNeverAlarm | recorder/heartbeat.go:102-181 | the same without a bound on the state, for beats at least a gap apart, while two hours and the time since the last cleanup, or the time since the first beat, is below 65535 gaps |
| HeartbeatRuns.FalseAlarmIff | recorder/heartbeat.go:116-181 | under any interleaving of regular beats with summaries and cleanups, a drop is reported if and only if at least 65536 beats are held, their number modulo 65536 is positive, and the duration, cut off at two hours, holds more intervals than that number |
| HeartbeatRuns.SteadyRunAlarms | recorder/heartbeat.go:120-120 | every run of 65537 beats one gap apart, at most an interval each, is steady and reports a drop if and only if the time it covers, cut off at two hours, holds two intervals |
| HeartbeatRuns.WindowBound | recorder/heartbeat.go:102-120 | after a cleanup, beats an interval apart number at most one more than the intervals two hours hold |
| HeartbeatRuns.CountIsExact | recorder/heartbeat.go:120-120 | from one beat a second down, the 16-bit count after a cleanup is exact |
| HeartbeatRuns.EarliestNeverIncreases | recorder/heartbeat.go:135-139 | the remembered earliest time never increases along a run |
| HeartbeatRuns.SummaryBounds | recorder/heartbeat.go:117-181 | after a summary the earliest time is at or before every held beat; the duration spans any two of them and is not negative; the drop rate is in [0, 1) |
| Transactions.IndexIsMinute | recorder/transaction.go:55-64 | a receipt's slot is the number of whole minutes after the first one's minute, saturated durations included |
| Transactions.Recorder.Add | recorder/transaction.go:47-67 | the first receipt fixes the base at the beginning of its minute and later ones leave it; a receipt sets its slot or is ignored outside the two hours |
| Transactions.Recorder.FindReceivedItemFromIndex | recorder/transaction.go:117-124 | the first set slot from a position on, or none |
| Transactions.CleanupCleansUp | recorder/transaction.go:90-109 | a cleanup less than two hours after the base changes nothing; any other clears slot 0 and no other, moves the base to the minute after the next receipt or to zero, and does not forget that something was received |
| Transactions.Recorder.CleanupExpired | recorder/transaction.go:90-109 | the scan and partial copy do just that, for every bitmap |
| Transactions.Recorder.ReceivedCount | recorder/transaction.go:168-176 | the number of set slots |
| Transactions.Recorder.Summary | recorder/transaction.go:127-162 | with no slot set 1 after a receipt and 0 before; otherwise the missing share of the whole minutes since the base, at most 120, with the number of set slots and the time since the base |
| Transactions.BitmapIsMinutes | recorder/transaction.go:47-67 | without cleanups, a slot is set exactly when some receipt lies that many whole minutes after the first |
| Transactions.OrderIsIrrelevant | recorder/transaction.go:47-67 | order and repetition after the first receipt do not matter |
| Transactions.DropRateIsExact | recorder/transaction.go:127-162 | before any cleanup the drop rate is the share of the elapsed minutes, at most 120, without a receipt, and below 1; the duration is the time since the first receipt's minute |
| Transactions.NoDropWhenAllReceived | recorder/transaction.go:127-162 | it is 0 when every elapsed minute had a receipt |
| Transactions.CleanupCounts | recorder/transaction.go:90-109 | a due cleanup lowers the count by one if slot 0 was set, and otherwise leaves it |
| Transactions.CleanupKeepsMeaningIff | recorder/transaction.go:90-109 | after any receipts, a cleanup leaves bits that still stand for the minutes of their receipts if and only if it was not due, or found no slot beyond the first set (and the first receipt is not within two hours of the zero time) |
| Transactions.CleanupMisplacesReceipts | recorder/transaction.go:105-106 | the smallest instance that loses the meaning: receipts in two consecutive minutes |
| Transactions.CleanupKillsIff | recorder/transaction.go:98-103 | a cleanup leaves the recorder dead if and only if it is due and no slot beyond the first is set |
| Transactions.OneReceiptDies | recorder/transaction.go:98-103 | the shortest such run: one receipt, and a tick two hours after its minute |
| Transactions.DeadForever | recorder/transaction.go:47-62 | a dead recorder ignores every later receipt and reports a full drop for ever |
| Transactions.DropRateBounds | recorder/transaction.go:127-151 | the drop rate is in [0, 1], 1 exactly when receipts have come and none is left, and 0 when nothing came |
| Transactions.ReceivedIff | recorder/transaction.go:47-51 | over any run with ticks, the recorder knows that something was received if and only if there was a receipt |
| Transactions.FirstReceiptSetsBase | recorder/transaction.go:47-51 | over any run with ticks, only the first receipt sets the base, to its own minute |
| Transactions.ReceiptSetsItsSlot | recorder/transaction.go:55-67 | over any run with ticks, a receipt sets the one slot of its minute, counted from the base as the cleanups have moved it, and no other; outside the 120 minutes it sets none |
| InfluxQueue.Influx.Add | db/influx.go:61-69 | a point is appended, unless the database is not configured |
| InfluxQueue.Influx.Drain | db/influx.go:107-112 | the locked part of a write copies what the size snapshot allows for and empties the queue |
| InfluxQueue.Influx.Send | db/influx.go:114-136 | the whole batch is sent, or every point goes back |
| InfluxQueue.Influx.Write | db/influx.go:94-136 | without interleaving a write sends everything or leaves everything in order, and is one pass of the protocol's four steps |
| InfluxQueue.Influx.Loop | db/influx.go:44-92 | over any rounds of arrivals and a write each, and a last one at shutdown, what was sent and what is left are the arrivals in order; no point arrives during a write (the protocol below covers that) |
| InfluxQueue.SizedWindow | db/influx.go:107-112 | what lies beyond the size snapshot is what was added after it, and the snapshot never exceeds the queue |
| InfluxQueue.Conservation | db/influx.go:61-136 | in every reachable state, under any interleaving and any failures, the points added are those delivered, pending, in flight, and those added between a snapshot and its drain |
| InfluxQueue.NoDuplicates | db/influx.go:94-136 | no point is delivered more often than it was added |
| InfluxQueue.NothingLostIff | db/influx.go:107-111 | nothing is lost if and only if no point is added between a snapshot and its drain |
| InfluxQueue.FirstInFirstOut | db/influx.go:61-136 | when no point comes between a snapshot and its drain and nothing fails, the delivered points, those in flight and the pending ones are the added points in the order of their arrival |
| InfluxQueue.FailureReorders | db/influx.go:128-133 | the smallest run in which a failed write puts its point behind one that came later |
| InfluxQueue.DeliveredGrows | db/influx.go:114-136 | what has been delivered stays delivered, in front of what follows |
| InfluxQueue.LossyRun | db/influx.go:107-111 | the smallest run that loses a point |
| InfluxQueue.StuckForever | db/influx.go:115-123 | from any reachable state whose next batch holds a refused point, nothing is ever delivered any more |
| InfluxQueue.StuckIff | db/influx.go:94-136 | from any reachable state, no continuation whatsoever delivers anything if and only if the next batch (in flight, counted by the snapshot, or all that is pending) holds a refused point |
| InfluxQueue.ReachableIsConsistent | db/influx.go:94-112 | a run never counts more points than there are and never takes an empty batch |
| InfluxQueue.DeliveredAreWellFormed | db/influx.go:115-135 | only accepted points are delivered |
| TaskGroup.Group.Go | tasks/task.go:17-24 | spawning a task counts nothing: the counter is still the number of running tasks |
| TaskGroup.Group.GoFrom | tasks/task.go:17-24 | the same when a running task spawns |
| TaskGroup.Group.Started | tasks/task.go:18-20 | the goroutine registers itself, after which the counter is the number of running tasks |
| TaskGroup.Group.Ended | tasks/task.go:20-22 | a finished task leaves a counter that is the number of running tasks and not negative |
| TaskGroup.Group.Wait | tasks/task.go:27-29 | when the wait passes, no registered task is unfinished |
| TaskGroup.Group.SignalDone | tasks/task.go:29-30 | when the signal is sent after a clean shutdown, every task ever created has finished and none is waiting to register |
| TaskGroup.CounterCountsRunning | tasks/task.go:17-24 | in every reachable state the counter is the number of registered unfinished tasks |
| TaskGroup.TasksAreConserved | tasks/task.go:17-24 | every task created is waiting to register, running or finished |
| TaskGroup.ShutdownIsSafe | tasks/task.go:26-30 | if nothing is unregistered when the wait passes and nothing outside spawns later, every task has finished and none runs, from then on |
| TaskGroup.QuietIff | tasks/task.go:17-30 | with the counter at zero, the group stays quiet by itself if and only if no task is unregistered |
| TaskGroup.EarlySignalRun | tasks/task.go:17-30 | the smallest run in which a task runs after the signal |

## Left out

- ZeroMQ, Slack, configuration, caches, key handling and the node loops: plumbing around libraries that are not part of this model.
- String rendering of the summaries and the floating-point formatting in it; drop rates are exact reals, so rounding of `float64` is not modelled.
- Block numbers are unbounded naturals: the code compares them and counts up to a bound, so 64 bits never wrap.
- BlockRecorder.Blocks.CleanupExpiredLongConfirms: states the code's rule (from the last live entry on), not an exact expiry filter (`ConfirmsHeldIff`), because neither the code nor recorder/blocks_test.go:480-499 filters.
- Transactions: what a bit stands for after a cleanup that moved the base, because the code does not keep it (`CleanupKeepsMeaningIff`); and minutes in time zones whose clock is set back.
- Heartbeat: `fullCycleReceivedCount` and `intervalSecond` are package variables shared by all recorders; the model has one interval for each recorder. `earliest` of the block and transaction recorders is never read.
- Reading the clock several times within one call: each call has one `now`.
- Data races: `Add` and `Summary` of the block recorder run without the lock in the source, each is one atomic step here.
- InfluxQueue.Influx.Loop: no point arrives during one of its writes, because a method call cannot be interleaved; the step protocol in the same module has Adds between any two steps of a write.
- HeartbeatRuns.SilenceIff: assumes that the first time is not forgotten; `SilenceCounts` gives the exact condition.
- InfluxQueue: one writer, as `Loop` and its deferred `Close` run in one goroutine; batch contents, and a database that stores a batch and still reports an error.
- TaskGroup: tasks that panic, and who receives the signal.
