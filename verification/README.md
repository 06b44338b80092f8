# Verified models of the telemetry suite's stateful algorithms

Pits n' Giggles receives UDP telemetry from the F1 games and turns it into overlays, statistics,
save files and captures. Most of it is input, output and field copying. This project models, in
Dafny, the parts that keep state over a whole session, and proves what they promise over every run
or every input. `dafny verify dfyconfig.toml` checks all of it.

| file | what it models |
|---|---|
| `LapDelta.dfy` | the lap delta timeline: a log of samples and flashbacks, the points that survive it, and reading a lap by interpolation |
| `SessionCache.dfy` | the session metadata cache: edits, overlapping scans, tasks in any order, several app versions, one cache file, and the session list built from it |
| `Capture.dfy` | the packet capture file: header, entries, writer, reader, truncation, byte order, compression |
| `Welford.dfy`, `EventStats.dfy` | the three online statistics classes against the list of everything they observed |
| `Mailbox.dfy` | the latest-value slot: one writer and any number of readers in atomic steps |
| `TableDiffer.dfy` | row patches against the table a UI holds, with losses and failed deliveries |
| `PeriodicTask.dfy` | the deadline loop against an arbitrary nondecreasing clock |
| `LapTimeText.dfy` | printing and parsing lap times |
| `LapPositions.dfy` | the lap-positions packet, its transpose, and the fixed-stride array parser |
| `FuelRate.dfy` | the fuel rate recommender |
| `SaveInvariants.dfy` | the save-file checks and what a clean report means |
| `TrackMap.dfy` | bin coverage, averaging and projection of the track map |
| `CleanLaps.dfy` | the race-pace filter with its median test |
| `Sorting.dfy`, `Common.dfy` | the stable sort the other models share; result types, what a filter keeps, and set facts |

How the models are built. An object whose methods update its fields is a class; a ghost log records
what it was told, and `Valid` ties every field to that log. Code that several tasks or threads run
at once is a transition system, and its theorems quantify over every list of steps. A list or
dictionary that is changed in place is a `seq` or `map` field that the methods reassign.

Assumptions. Binary floating point is idealised as `real`, without NaN. A capture timestamp is an
opaque 32-bit pattern. zlib is an arbitrary pair of functions with `decompress(compress(x)) == x`.
Rounding to three decimals is any monotone function that fixes whole numbers and moves no value by
more than half of the last digit. File edits give an mtime that is positive and was never used
before for that file; one directory listing, one read of a file, the building of one list entry,
and one load or save of the cache file, is atomic. Parsing a session file is an arbitrary function
of app version and content; whether an entry can be built from metadata, and the date that metadata
or the file name gives, are arbitrary functions of path and metadata.

Where the code does not keep a promise on all inputs, the exact condition is proved:

* A stat that fails is recorded as mtime 0, and a later read may still succeed. The entry it leaves
  behind is hit by a later task whose stat fails too: a listed file that was replaced during one
  scan and deleted during the next is answered from the cache (`DeletedFileServedFromCache`). The
  list then omits that file where a cold scan shows a fallback entry, or, if the file comes back
  before its entry is built, shows metadata of a version long gone (`StaleMetadataListed`). A hit is
  right exactly when its stat found a file, and a quiet warm scan reports and lists what a cold one
  does exactly when no listed file that is gone has such an entry.
* The compression flag a dump writes and the helper it compresses with can disagree: the flag stays
  as constructed while reading a file replaces the helper. A dump reads back whole exactly when
  every payload survives the helper's mode followed by the flag's; `WrongFlagExample` fails in both
  directions, and agreement always suffices.
* A packet read from a capture always takes the default, little-endian order. On a big-endian host
  dumping it again writes little-endian entries under a big-endian header; uncompressed, the result
  reads back the same exactly when every timestamp and length is the same in both orders
  (`RedumpOnBigHostExample` is one that is not).
* The flashback anchor has time 0, so the times of a lap need not be monotone, and the reads of a
  lap are monotone in distance exactly when its times are. One event keeps that order exactly when
  the last point it keeps has a time not above its own. The session state's own calling order
  (flashback, then a sample at the same place) never leaves an anchor behind.
* The running minimum of the statistics classes starts at 2^63 - 1 and is a sample exactly when
  some sample does not exceed that.
* The short lap-time form (no minutes) is rejected by the lap-time parser; the parser takes the
  short form exactly for times of at least a minute.
* The shortage test in `parse_array` looks at the nominal length and can never decide. A short
  buffer is still rejected for a class that unpacks its whole slice, by that class
  (`FixedSizeParsesIffEnoughData`). A class that reads a prefix, as participants do from format 2025
  on, accepts a short last item exactly when what is missing is unused (`ParticipantIff`,
  `ShortParticipantAccepted`).
* `transposeLapPositions` is its own inverse exactly on the empty list and on rectangles with cells.

## Model

| member | source | states |
|---|---|---|
| LapDelta.SurvivorsStep | lib/delta/manager.py:58-102 | one more event turns the points that no later event has removed into: those before its distance plus its own point on its lap, nothing on later laps after a flashback, the same elsewhere |
| LapDelta.RecordStep | lib/delta/manager.py:58-102 | all three branches of recording are one rule on the whole store: keep what lies strictly before, then append |
| LapDelta.FlashbackStep | lib/delta/manager.py:142-185 | a flashback removes later laps, trims its lap and appends a zero-time anchor, nothing else |
| LapDelta.SurvivorsIncreasing | lib/delta/manager.py:34-46 | after any run, distances on every lap are strictly increasing and every point carries its lap's number |
| LapDelta.LastPointIsLastOfItsLap | lib/delta/manager.py:87-102 | after any run the last recorded point is the last point of its lap |
| LapDelta.FlashbackAbsorption | lib/delta/manager.py:142-185 | a second flashback absorbs the first on every timeline if and only if it goes back to the same place or earlier |
| LapDelta.TimeAtCoversSpan | lib/delta/manager.py:198-205 | a time is reported exactly for distances inside the recorded span |
| LapDelta.TimeAtSample | lib/delta/manager.py:207-211 | reading at a stored sample returns its time |
| LapDelta.TimeAtIsTruncatedLine | lib/delta/manager.py:213-229 | between two neighbouring samples the answer is the truncated height of the straight line through them, pinned by equal slopes |
| LapDelta.TruncateIsTowardZero | lib/delta/manager.py:225-229 | truncation gives the integer within one of the value on the side of zero |
| LapDelta.TimeAtStaysBetweenNeighbours | lib/delta/manager.py:190-229 | after truncation the answer still lies between the two neighbouring integer times, rising or falling |
| LapDelta.ReadsMonotoneIffTimesAre | lib/delta/manager.py:190-229 | reads are nondecreasing in distance if and only if the lap's stored times are |
| LapDelta.EventKeepsTimeOrderIff | lib/delta/manager.py:58-102 | a record or flashback keeps a lap's times nondecreasing if and only if it is on another lap or the last point it keeps has a time not above its own |
| LapDelta.AnchorBreaksTimeOrder | lib/delta/manager.py:181-185 | a concrete run after which the anchor makes both the times and the reads of a lap go down |
| LapDelta.DeltaDefinedIff | lib/delta/manager.py:112-140 | a delta exists if and only if a best lap is set, something was recorded, and the best lap's surviving samples span the current distance |
| LapDelta.DeltaAtSample | lib/delta/manager.py:112-140 | where the best lap has a surviving sample at the car's distance, the delta is the last point's time minus that sample's; point, best lap, best time and distance of the result |
| LapDelta.DeltaBetweenSamples | lib/delta/manager.py:112-140 | between two samples the delta is the last point's time minus the truncated height of the line through them, pinned by equal slopes |
| LapDelta.DeltaToOwnLapIsZero | lib/delta/manager.py:112-140 | measured against its own lap the car's delta exists and is 0 after any run |
| LapDelta.NoAnchorOutlivesItsTick | apps/backend/state_mgmt_layer/session_state.py:395-405 | when every flashback is followed by a sample at the same place, every stored point is a real sample |
| LapDelta.BisectLeft | lib/delta/manager.py:94 | binary search on increasing distances splits them into those below and those at or above |
| LapDelta.LapDeltaManager.constructor | lib/delta/manager.py:48-53 | a new manager means the empty log |
| LapDelta.LapDeltaManager.RecordDataPoint | lib/delta/manager.py:58-102 | keeps both dictionaries and the last point equal to the meaning of the log extended by the sample; states the new store outright |
| LapDelta.LapDeltaManager.SetBestLap | lib/delta/manager.py:104-110 | changes the best lap only |
| LapDelta.LapDeltaManager.HandleFlashback | lib/delta/manager.py:142-185 | same for a flashback: no later laps, trimmed lap plus anchor, other laps untouched |
| LapDelta.LapDeltaManager.InterpolatedTimeForDistance | lib/delta/manager.py:190-229 | the bisect reading equals a linear scan over the surviving points; indices stay in range and the equal-distance branch is unreachable |
| LapDelta.LapDeltaManager.GetDelta | lib/delta/manager.py:112-140 | the returned delta is the one the event log and the best lap define |
| SessionCache.StepKeepsInv | apps/web/session_discovery.py:401-434 | every step of edits, scans, tasks and saves keeps: an entry under a real mtime is right about the file with that mtime while it is current |
| SessionCache.RunKeepsInv | apps/web/session_discovery.py:540-591 | so does every run, in any interleaving |
| SessionCache.StoredEntryOk | apps/web/session_discovery.py:426-431 | what a task stores is right, or sits under an mtime that is already history |
| SessionCache.EntryRightWhenCurrent | apps/web/session_discovery.py:417-424 | an acceptable entry whose mtime is the file's current one holds what parsing the file returns |
| SessionCache.HitIsRightIffStatSucceeded | apps/web/session_discovery.py:417-424 | a cache hit reports what parsing the file as it was when stat'ed reports, if and only if that stat found a file |
| SessionCache.OutcomeIsNeverOlderThanItsStat | apps/web/session_discovery.py:401-434 | every other outcome is that of a version the file had between the task's stat and its end |
| SessionCache.DeletedFileServedFromCache | apps/web/session_discovery.py:417-424 | a reachable run in which a task returns data for a file that was missing from the task's stat to its end, and the list omits the file where a cold scan shows a fallback |
| SessionCache.StaleMetadataListed | apps/web/session_discovery.py:455-513 | a reachable run whose list shows the metadata of a version gone before the task's stat; its date is that of the stale metadata or the file name, and only without one the mtime of the new version |
| SessionCache.ListedEntryIsFromItsWindow | apps/web/session_discovery.py:563-574 | in every run, a listed entry displays an outcome the file had between its task's stat and end, dated by metadata or file name or else by the file's stat at building time; the failed stat is the one exception |
| SessionCache.WhatTheListShows | apps/web/session_discovery.py:455-513 | for every built entry of every run: a fallback if and only if the outcome is an error; metadata if and only if the file was there at building time and the metadata is usable, else nothing; the known date, or the mtime without one |
| SessionCache.WarmScanEqualsColdScan | apps/web/session_discovery.py:540-591 | a scan without edits, among any other scans and in any task order, reports the outcomes of parsing everything from scratch, and yields the list of a cold scan, if and only if no listed missing file has an entry under the failed-stat mtime |
| SessionCache.SavedScanLeavesOnlyFailuresToRead | apps/web/session_discovery.py:588-591 | after the save, the next load of the same version answers for an existing listed file if and only if it parsed |
| SessionCache.SaveStoresListedEntries | apps/web/session_discovery.py:588-591 | a save writes the scan's version and exactly the cached entries of the files it listed, and changes nothing else |
| SessionCache.LoadIffVersionMatches | apps/web/session_discovery.py:83-98 | a load takes over the file's entries if and only if the version matches |
| SessionCache.ScanStepsNeed | apps/web/session_discovery.py:540-591 | a listing holds existing files only, a scan loads once, and it saves if and only if every entry has been built |
| Capture.HeaderRoundTrip | lib/packet_cap.py:180-232 | every header in range survives writing and reading |
| Capture.HeaderLayout | lib/packet_cap.py:180-202 | which byte and which bits hold each field, the count low byte first |
| Capture.ConstructedHeaderRoundTrip | lib/packet_cap.py:90-115 | which headers can be constructed; one with nonnegative fields and a count of 32 bits survives writing and reading |
| Capture.EntryLayout | lib/packet_cap.py:263-276 | an entry is stamp, length of what follows, and payload, both numbers in the byte order of the packet |
| Capture.HeaderRewriteIffCanonical | lib/packet_cap.py:203-232 | reading twelve bytes always succeeds; writing them again gives them back if and only if the magic and the unused flag bits were canonical |
| Capture.FrontEntryReadBack | lib/packet_cap.py:263-301 | an entry at the front of a body ends where it should and reads back with its payload and stamp, in the default byte order |
| Capture.CutEntryRaises | lib/packet_cap.py:449-468 | any proper nonempty prefix of an entry makes the reader raise without a packet |
| Capture.TruncatedBody | lib/packet_cap.py:447-468 | cut a body anywhere: exactly the whole entries are read, and reading raises if and only if the cut is not on a boundary |
| Capture.TruncatedFile | lib/packet_cap.py:438-468 | the same for every prefix of a dumped file, the header included |
| Capture.EntriesWithin | lib/packet_cap.py:447-468 | the number of entries that fit in a prefix is pinned by the two boundaries around it |
| Capture.DumpReadsBack | lib/packet_cap.py:369-468 | a dump reads back whole in either compression mode and host byte order, the header counting the packets |
| Capture.DumpedHeader | lib/packet_cap.py:402-412 | the header of every dump, field by field: version 1.1, the number of packets, host order, the flag; and the count in bytes 8 to 11 |
| Capture.PartialFileReads | lib/packet_cap.py:409-417 | a dump that meets an oversized packet leaves a file that reads back, without an error, as exactly the packets before it, under a header that counts all |
| Capture.ConvertOnLittleHost | lib/packet_cap.py:340-346 | read, change the compression, dump, read again keeps the packets on a little-endian host |
| Capture.SymmetricRedumpReadsBack | lib/packet_cap.py:263-301 | in either compression mode, packets with symmetric stamps and written lengths read back whole on a big-endian host |
| Capture.RedumpOnBigHostExample | lib/packet_cap.py:279-301 | a one-byte packet that a big-endian host loses |
| Capture.RedumpOnBigHostIffSymmetric | lib/packet_cap.py:279-301 | on a big-endian host an uncompressed redump reads back the same if and only if every stamp and length is a byte palindrome |
| Capture.DumpWithWrongFlag | lib/packet_cap.py:402-417 | reading a compressed file into a capture made uncompressed and dumping it yields the compressed payloads |
| Capture.DumpReadsBackIff | lib/packet_cap.py:369-468 | for every flag and helper, a dump reads back whole if and only if every payload survives the helper's mode followed by the flag's; agreement suffices |
| Capture.WrongFlagExample | lib/packet_cap.py:402-417 | a compressor and a one-packet capture for which either disagreement breaks the round trip |
| Capture.WriteEntries | lib/packet_cap.py:414-417 | the write loop succeeds if and only if every length fits its field, and writes, in order, all entries before the first that does not |
| Capture.ReadEntries | lib/packet_cap.py:447-468 | the read loop terminates and appends exactly the packets of the recursive reading |
| Capture.F1PacketCapture.Recording | lib/packet_cap.py:311-338 | a new capture is empty, its flag agrees with its helper, and its header is version 1.1 with count 0 in host order |
| Capture.F1PacketCapture.ForFile | lib/packet_cap.py:323-327 | before its file is read, a capture is empty, has no compression flag and writes uncompressed |
| Capture.Open | lib/packet_cap.py:311-338 | a capture can be made if and only if exactly one of mode and file is given and a named file reads to its end; then its state is that of the mode or of the file, and for an empty file name that of a capture with nothing read and no flag |
| Capture.F1PacketCapture.SetCompressed | lib/packet_cap.py:340-346 | flag and helper agree afterwards, the packets are untouched |
| Capture.F1PacketCapture.Add | lib/packet_cap.py:348-358 | appends one packet in host order, and the header counts the history |
| Capture.F1PacketCapture.Clear | lib/packet_cap.py:491-497 | empties the history and the count only |
| Capture.F1PacketCapture.DumpToFile | lib/packet_cap.py:369-424 | no file for an empty capture; success if and only if the flag is set and everything fits, with the exact file, whose header counts the packets, and which reads back as the capture's own packets when flag and helper agree; otherwise the error and exactly what it leaves on disk |
| Capture.F1PacketCapture.ReadFromFile | lib/packet_cap.py:426-472 | appends the packets read before the end or the error to the history, and takes over header and helper exactly when there is a header |
| Welford.Step | lib/event_counter/latency.py:96-100 | one update keeps mean and m2 the exact average and the exact sum of squared deviations from it |
| Welford.Observe | lib/event_counter/frame_render.py:87-92 | the shared update code extends the described sample list by one |
| Welford.MeanIsLeastSquares | lib/event_counter/latency.py:96-127 | m2 is never negative, so the deviation is defined, and no other centre has a smaller sum of squares |
| Welford.VarianceIsMeanSquaredDeviation | lib/event_counter/latency.py:119-127 | the published variance is the mean squared deviation for every count, the guarded ones included |
| Welford.MeanBetweenExtremes | lib/event_counter/present_smoothness.py:121-131 | min <= mean <= max, and the total lies between min * count and max * count |
| Welford.ExtremesBound | lib/event_counter/latency.py:91-94 | the running extremes bound every sample and are samples or the start values |
| Welford.WindowStep | lib/event_counter/latency.py:102-103 | the bounded deque is always the last 512 samples |
| Welford.SortedPicksRank | lib/event_counter/latency.py:137-145 | the element a percentile picks is the one number with that rank among the samples, whatever sorts them |
| Welford.PercentilesOrdered | lib/event_counter/latency.py:137-145 | a higher percentile is never smaller |
| Welford.ReadPercentiles | lib/event_counter/latency.py:137-145 | sorting the window once and picking three elements gives the three ranks, in order; zeros for an empty window |
| EventStats.LatencyStat.ObservePacket | lib/event_counter/latency.py:77-117 | every field means what it should about all packets so far: statistics, window, jitter sum, count and maximum, ewma, and rejected packets |
| EventStats.EwmaBetweenExtremes | lib/event_counter/latency.py:113-117 | the smoothed latency stays between the smallest and largest sample |
| EventStats.EwmaAppend | lib/event_counter/latency.py:113-117 | the first sample is taken as it is, each later one moves the value a tenth of the way |
| EventStats.JumpsStep | lib/event_counter/latency.py:105-111 | one more sample adds one jump, its distance to the sample before, to sum, count and maximum |
| EventStats.ExtremesAreSamples | lib/event_counter/latency.py:91-94 | the maximum is a sample; the minimum is one if and only if some sample does not exceed its start value |
| EventStats.FrameTimingStat.ObserveFrame | lib/event_counter/frame_render.py:66-110 | every field means what it should about all frames and resets so far |
| EventStats.FrameTimingStat.ResetBaseline | lib/event_counter/counter.py:155-171 | forgetting the last timestamp keeps everything else |
| EventStats.StreakStep | lib/event_counter/frame_render.py:95-104 | the streak counters stay the trailing and the longest run of consecutive over-budget intervals |
| EventStats.BudgetAppend | lib/event_counter/frame_render.py:95-110 | missed frames and pacing errors follow the intervals one by one |
| EventStats.PresentSmoothnessStat.ObservePresent | lib/event_counter/present_smoothness.py:93-136 | every counter means what it should about all presents so far |
| EventStats.EveryPresentAccounted | lib/event_counter/present_smoothness.py:93-136 | every present is counted in exactly one of five places |
| EventStats.KindOfPresent | lib/event_counter/present_smoothness.py:100-136 | how each present is accounted, by inequalities over its period and its gap to the last valid timestamp: three periods and 100 ms for a boundary, two periods for a hitch |
| EventStats.ActiveIntervalsKeep | lib/event_counter/present_smoothness.py:121-131 | the intervals behind the statistics are the gaps of exactly the active presents, in order |
| EventStats.BaselinesAreStarts | lib/event_counter/present_smoothness.py:104-108 | for any log, a baseline is taken once for each valid present with no timestamp, or a zero one, before it |
| EventStats.OneBaseline | lib/event_counter/present_smoothness.py:104-108 | with nonzero timestamps there is exactly one baseline once a present with a valid period is seen |
| EventStats.PresentsAddUp | lib/event_counter/present_smoothness.py:93-136 | for any log, presents are baselines plus active intervals plus boundaries plus nonpositive intervals; with nonzero timestamps one baseline |
| EventStats.LatencyStat.Percentiles | lib/event_counter/latency.py:137-145 | each published percentile is a sample of its rank among the last 512 valid latencies, and p50 <= p95 <= p99 |
| EventStats.PresentSmoothnessStat.Percentiles | lib/event_counter/present_smoothness.py:156-163 | the same among the last 512 active intervals |
| Mailbox.StepKeepsInv | lib/mailbox.py:60-88 | every atomic step of the writer and the readers keeps slot, numbering, cursors and counters consistent |
| Mailbox.RunKeepsInv | lib/mailbox.py:60-88 | so does every interleaving |
| Mailbox.FinishKeepsReader | lib/mailbox.py:73-88 | finishing a read keeps the reader consistent and never leaves it behind the stores that preceded its call |
| Mailbox.DeliveriesAreInPublishOrder | apps/hud/ui/infra/window_mgr.py:244-289 | every delivered pair is the payload published under that number; numbers never go down and fresh deliveries go strictly up |
| Mailbox.CallCatchesUp | lib/mailbox.py:60-88 | a call that began after n stores leaves the reader at n or later, and at exactly n if nothing newer was stored |
| Mailbox.TakeHandsOut | apps/hud/ui/infra/window_mgr.py:265-289 | a take begun after n > 0 stores always hands out one more payload, numbered at least n, whatever the reader has seen |
| Mailbox.TakeIfNewHandsOutUnseen | lib/mailbox.py:73-88 | a take_if_new begun after a store hands out exactly one payload if the slot is past the cursor, and otherwise nothing and counts as coalesced |
| Mailbox.TakesAreDeliveries | lib/mailbox.py:68-71 | over every run, finished takes are deliveries plus empty answers, which need a take begun before the first store |
| Mailbox.DeliveredPlusCoalescedIsCalls | lib/mailbox.py:73-88 | calls answering a notification are deliveries plus coalesced calls; empty answers need a call before the first store |
| TableDiffer.ChangesAreTheDifferences | lib/table_differ.py:85-92 | patches list exactly the differing indices, ascending, with the new rows |
| TableDiffer.PatchedCell | lib/table_differ.py:85-92 | a cell after applying patches with distinct indices is the patched row or the old one |
| TableDiffer.PatchOrderIrrelevant | lib/table_differ.py:85-92 | two lists of the same patches give the same table in any order |
| TableDiffer.PayloadRebuildsRows | lib/table_differ.py:76-95 | a payload diffed against the UI's table turns it into the new rows; there is no payload if and only if nothing changed |
| TableDiffer.DiffSends | lib/table_differ.py:81-95 | a reset if and only if there is no baseline of the same length, nothing if and only if nothing changed, and otherwise patches of exactly the differing rows in order |
| TableDiffer.BaselineIsTheTable | apps/hud/ui/overlays/base/qml_bridge.py:111-123 | over runs that invalidate after each loss, the baseline is the table the UI shows |
| TableDiffer.BaselineAfter | apps/hud/ui/overlays/base/qml_bridge.py:111-123 | rows that were delivered, or needed no delivery, become the baseline and are not sent again; after a failed delivery the next rows are sent in full |
| TableDiffer.UiShowsLatestRows | apps/hud/ui/overlays/base/qml_bridge.py:111-123 | after each synchronisation the UI shows the latest rows if and only if the payload could be delivered or they were there already |
| TableDiffer.UpdatesAddUp | lib/table_differ.py:76-95 | updates are resets, unchanged updates and nonempty patch payloads |
| TableDiffer.TableDiffer.Update | lib/table_differ.py:76-95 | returns the diff against the old baseline, stores the new one, and keeps the counters equal to what was returned so far |
| TableDiffer.TableDiffer.Invalidate | lib/table_differ.py:97-103 | drops the baseline only |
| PeriodicTask.TurnOutcome | lib/periodic_task.py:63-77 | each turn by its clock readings: when its deadline is missed, that it otherwise sleeps exactly until the deadline, and what the next loop head is |
| PeriodicTask.TurnFacts | lib/periodic_task.py:56-77 | no turn starts before its loop head, no sleep exceeds the interval, loop heads are at least an interval apart |
| PeriodicTask.NoBurst | lib/periodic_task.py:56-77 | n turns after any turn, at least n intervals have passed, whatever was missed in between |
| PeriodicTask.StartsNoEarlierThanSchedule | lib/periodic_task.py:56-77 | the k-th start is no earlier than t0 + k * interval |
| PeriodicTask.OnGridIffNeverLate | lib/periodic_task.py:56-77 | the first n deadlines are on the grid if and only if every deadline missed before the last of them was resynchronised the moment it was due |
| PeriodicTask.HeadsOnGridIffNeverLate | lib/periodic_task.py:56-77 | every turn leaves its loop head on the grid if and only if every missed deadline, the last included, was resynchronised the moment it was due |
| PeriodicTask.Loop | lib/periodic_task.py:56-77 | the loop produces the trace the theorems are about |
| LapTimeText.ParsePrint | lib/f1_types/common.py:952-1076 | the parser undoes the printer for every millisecond count |
| LapTimeText.PrintInjective | lib/f1_types/common.py:952-971 | different times never print the same |
| LapTimeText.PrintLayout | lib/f1_types/common.py:952-971 | where the two separators are and what each digit group is worth |
| LapTimeText.ShortFormParsesIffMinute | lib/f1_types/common.py:1126-1141 | the short form parses, to the same time, if and only if it has a minute in it |
| LapTimeText.ShortLayout | lib/f1_types/common.py:1126-1141 | the short form is the long one from a minute on and SS.mmm below |
| LapTimeText.ParseIff | lib/f1_types/common.py:1064-1076 | a string parses to a value if and only if it is three digit strings joined by a colon and a dot that mean it |
| LapPositions.Flatten | lib/f1_types/packet_15_lap_positions_data.py:139-197 | the loop that pads and joins the rows builds the flat list |
| LapPositions.SerialiseSucceeds | lib/f1_types/packet_15_lap_positions_data.py:139-163 | a byte-valued matrix with its own row count always serialises |
| LapPositions.SerialiseIff | lib/f1_types/packet_15_lap_positions_data.py:139-163 | a packet serialises if and only if its counts and used positions are bytes and its rows with the unused laps make fifty |
| LapPositions.SerialisedShape | lib/f1_types/packet_15_lap_positions_data.py:139-163 | the two counts come first, then the rows, then only zeros, 2 + 50 * cars bytes in all |
| LapPositions.SerialisedByte | lib/f1_types/packet_15_lap_positions_data.py:139-163 | the byte of lap l and car c is at 2 + l * cars + c and holds that position, 0 where the row is short |
| LapPositions.SerialiseParse | lib/f1_types/packet_15_lap_positions_data.py:66-88 | parsing what was serialised gives the packet back with padded rows, the same matrix when rows are full, for any number of cars, 22 and 24 included |
| LapPositions.ParseSerialiseIff | lib/f1_types/packet_15_lap_positions_data.py:139-163 | serialising what was parsed gives the bytes back if and only if the unused laps are zero |
| LapPositions.TransposeCells | lib/f1_types/common.py:1157-1189 | the transpose has a row for each column of the shortest row, and swaps the indices of every cell |
| LapPositions.TransposeTwiceIff | lib/f1_types/common.py:1157-1189 | transposing twice is the identity if and only if there are no rows, or a rectangle with cells |
| LapPositions.ParseArrayItems | lib/f1_types/base_pkt.py:351-369 | for any item class, success if and only if the count fits, the stride is positive and the class accepts every slice at its stride; which error otherwise; the offset passes all slots whatever the count; the shortage test never decides |
| LapPositions.ParsesIffEnoughData | lib/f1_types/base_pkt.py:351-369 | for a class that needs a prefix of its slice, success if and only if the data reaches that far into the last item |
| LapPositions.FixedSizeParsesIffEnoughData | lib/f1_types/base_pkt.py:351-369 | for a class that unpacks its whole slice, success if and only if the data reaches to the end of the last item |
| LapPositions.ShortBufferRaisesInItem | lib/f1_types/base_pkt.py:359-368 | three bytes parsed as two items of two bytes raise the second item's own error, not the shortage error |
| LapPositions.ParticipantIff | lib/f1_types/packet_4_participants_data.py:286-334 | a participant can be made if and only if its base fields and its used livery colours are there and the colour count fits |
| LapPositions.ParticipantContents | lib/f1_types/packet_4_participants_data.py:286-334 | its base is what precedes the colours, each colour its own three bytes |
| LapPositions.ShortParticipantAccepted | lib/f1_types/packet_4_participants_data.py:286-334 | a participant without colours is parsed from a buffer that ends after its base fields, short of its stride |
| FuelRate.ComputeRacingRate | lib/fuel_rate_recommender.py:234-263 | the accumulating loop finds a rate if and only if some stretch of the sorted racing laps has two laps, and then it is fuel used over laps driven in the stretches |
| FuelRate.RateIsStretchAverage | lib/fuel_rate_recommender.py:234-263 | the pairwise sums are, over the maximal stretches of consecutive laps, first minus last fuel and laps less one |
| FuelRate.RateOverStretches | lib/fuel_rate_recommender.py:261-263 | the rate exists if and only if some maximal stretch has two laps, and times the laps driven in stretches it is the fuel used in them |
| FuelRate.RateOfConsecutiveLaps | lib/fuel_rate_recommender.py:243-263 | on laps without a break it is the first fuel level minus the last over the laps less one |
| FuelRate.RacingKeeps | lib/fuel_rate_recommender.py:311-334 | the racing laps are exactly the racing entries, in order |
| FuelRate.PublishedFieldsMean | lib/fuel_rate_recommender.py:224-334 | which fields are published when, for every input, and that usage of the last lap, rate and prediction are what their names say |
| FuelRate.WithoutKeeps | lib/fuel_rate_recommender.py:126-139 | removal keeps exactly the entries of other laps, in order |
| FuelRate.SortedLaps | lib/fuel_rate_recommender.py:240-241 | the laps the rate is computed from are the racing laps in lap order, ties as they came |
| FuelRate.SurplusMeansEnoughFuel | lib/fuel_rate_recommender.py:271-309 | a surplus is published if and only if the data suffices, the rate is positive and laps are left; then predicted final fuel is the minimum plus surplus laps at the racing rate, and surplus, prediction, rate and next-lap target agree on whether there is enough |
| FuelRate.TargetsMeetMinimum | lib/fuel_rate_recommender.py:271-296 | driving the remaining laps at the target rate, or the laps left plus the surplus at the racing rate, ends on the minimum fuel; the next lap corrects half of the deviation from the target |
| FuelRate.FuelRateRecommender.constructor | lib/fuel_rate_recommender.py:97-110 | starts with the fields published for its inputs |
| FuelRate.FuelRateRecommender.Add | lib/fuel_rate_recommender.py:112-124 | appends a lap; the published fields depend only on the present inputs |
| FuelRate.FuelRateRecommender.Remove | lib/fuel_rate_recommender.py:126-139 | removes the laps with the given numbers, same guarantee |
| FuelRate.FuelRateRecommender.SetTotalLaps | lib/fuel_rate_recommender.py:213-222 | sets the lap count; skipping an unchanged value loses nothing |
| FuelRate.FuelRateRecommender.Recompute | lib/fuel_rate_recommender.py:311-334 | from any stale state, publishes the fields of the present inputs |
| FuelRate.FuelRateRecommender.ComputeTargetValues | lib/fuel_rate_recommender.py:271-296 | the published target ends on the minimum fuel, laps left plus surplus at the racing rate end there too, the next-lap target corrects half of the deviation; all other fields stay |
| SaveInvariants.CheckStintStructure | lib/save_invariants.py:192-213 | reports exactly the bad bounds and the bad joins |
| SaveInvariants.StructureCleanIffPartition | lib/save_invariants.py:192-213 | with no open stint but the last the rule is silent if and only if the stints partition the laps without gap or overlap |
| SaveInvariants.StructureCleanIffStretchesPartition | lib/save_invariants.py:192-213 | for any stints the rule is silent if and only if every stretch in which only the last stint is open is a partition |
| SaveInvariants.CheckStintWear | lib/save_invariants.py:215-243 | reports exactly the empty histories, the values out of range and the decreases |
| SaveInvariants.CheckHistory | lib/save_invariants.py:227-243 | the same for one stint |
| SaveInvariants.CleanIffPlausible | lib/save_invariants.py:215-243 | neighbour checks pass if and only if wear is present, in range and sorted over all pairs |
| SaveInvariants.CheckPerLapInfo | lib/save_invariants.py:245-253 | reports exactly the repeated lap numbers, entries minus distinct values in number |
| SaveInvariants.CheckUnique | lib/save_invariants.py:255-267 | reports exactly the repeated non-null values, present minus distinct in number |
| SaveInvariants.CheckDriver | lib/save_invariants.py:297-314 | the findings of one driver and the reason its wear is not checked |
| SaveInvariants.CheckSaveFile | lib/save_invariants.py:271-316 | reports exactly the findings of the rules that apply; checked and skipped drivers are all drivers, each under the right reason |
| SaveInvariants.DriverFindingsMean | lib/save_invariants.py:192-253 | every finding of the driver rules in terms of the bare fields |
| SaveInvariants.FileFindingsMean | lib/save_invariants.py:255-267 | every finding of the file rules in terms of the bare fields |
| SaveInvariants.CleanReportIffSoundFile | lib/save_invariants.py:271-316 | for every file, a report is clean if and only if the file is globally sound, open stints included |
| Sorting.SortIsSorted | lib/fuel_rate_recommender.py:240-241 | sorting with a key orders by the key |
| Sorting.SortKeepsEntries | lib/fuel_rate_recommender.py:240-241 | and keeps the multiset of entries |
| Sorting.SortIsStable | lib/fuel_rate_recommender.py:240-241 | and the order of entries with one key |
| TrackMap.BinHoldsItsStretch | lib/track_map_generator.py:191-195 | a point's bin is the stretch of track it lies on; the last bin takes everything beyond |
| TrackMap.CoverageIffAllBins | lib/track_map_generator.py:127-140 | full coverage means all 800 bins are hit, and implies the earlier point-count guard |
| TrackMap.Ready | lib/track_map_generator.py:127-140 | the guard passes if and only if every bin is hit |
| TrackMap.ReadyIffEveryBinAveraged | lib/track_map_generator.py:127-148 | the guard passes if and only if averaging yields all 800 points, and then point b times the count of bin b is the bin's sum of x and of z |
| TrackMap.BinAndAverage | lib/track_map_generator.py:183-204 | the accumulating dictionary yields the means of the nonempty bins in bin order |
| TrackMap.BinTotalStep | lib/track_map_generator.py:194-202 | each point adds its x, its z and itself to its own bin and to no other |
| TrackMap.ProjectionStaysOnCanvas | lib/track_map_generator.py:236-261 | every projected point lies inside the padding, also for tracks without width or height |
| TrackMap.ProjectionKeepsShape | lib/track_map_generator.py:236-261 | one positive factor scales both axes, with the vertical one turned over, up to 0.001 for the rounding of two points |
| TrackMap.ProjectionIsCentred | lib/track_map_generator.py:251-261 | the extreme points of the track are equally far from opposite edges of the canvas, up to rounding |
| TrackMap.PointTrack | lib/track_map_generator.py:248-261 | a track without any extent is projected to (240, 40) |
| CleanLaps.GetCleanRaceLaps | apps/web/session_discovery.py:210-240 | the filter loops yield the times the next three rows describe |
| CleanLaps.RacingTimesAre | apps/web/session_discovery.py:225-232 | the racing times are those of exactly the laps after the first that are valid, timed, outside safety car and pits, in order |
| CleanLaps.PitLapsAre | apps/web/session_discovery.py:217-221 | pit laps are the last lap of every stint but the last and the lap after it |
| CleanLaps.CleanTimesAre | apps/web/session_discovery.py:234-239 | of three racing times or more exactly those within 1.2 times the value of middle rank stay, in order; of fewer, all |
| CleanLaps.MoreThanHalfKept | apps/web/session_discovery.py:210-240 | more than half of the racing laps always survive the median test, so a driver with racing laps always has a pace |

## Left out

- Capture.F1PacketCapture.DumpToFile: does not model progress callbacks and generated file names; a dump after a read without `set_compressed` is modelled as the TypeError it raises.
- Capture.RedumpOnBigHostIffSymmetric: states the uncompressed case; with zlib only the direction of `SymmetricRedumpReadsBack` holds in general, since a wrongly cut payload may decompress to anything.
- Capture.Open: does not tell the exceptions apart that leave no capture behind.
- CleanLaps.GetCleanRaceLaps: laps and stints come as already extracted fields instead of nested dictionaries with defaults.
- EventStats.LatencyStat.ObservePacket: percentiles use exact arithmetic for the index, where the code multiplies in binary floating point; the dictionaries that publish the fields are left out.
- FuelRate.FuelRateRecommender.Remove: does not model a caller that keeps the list it handed over and changes it, since the history is a value here.
- LapDelta.LapDeltaManager.RecordDataPoint: the three branches share one append, and truncating a list in place is a reassignment.
- LapTimeText.ParseIff: strings with signs, spaces or underscores, which `int()` accepts, are outside the model's integer parser and read as errors there.
- Mailbox.DeliveredPlusCoalescedIsCalls: counts each reader's own calls; the shared `EventCounter`, whose increments are not atomic across threads, is left out.
- PeriodicTask.Loop: the random initial sleep and cancellation are left out; a run ends after any number of turns.
- SaveInvariants.CheckSaveFile: the metadata rule's outcome (session resolved, time trial, other) is an input; messages are replaced by rule and position.
- SessionCache.WarmScanEqualsColdScan: the fields of an entry beyond metadata and file date, the sorting of the list, slugs and the deletion of the legacy cache file are left out, and so are torn reads of the cache file that end in an exception other than the three it handles.
- TrackMap.BinAndAverage: the fallback to the largest distance when no track length is known is left out, because the caller always has one.
- Rotation, flipping and writing of the track map SVG: trigonometry and output.
- Sockets, asyncio plumbing, inter-process messages, HTTP routes, Qt, SQLite, logging, launchers: library calls without an algorithm of their own.
- The other packet classes of `lib/f1_types`, enum tables, `toJSON`, `__str__` and `__eq__`: field copying that a single read settles.
- Rate limiter, button debouncer, rolling history, packet forwarder, inter-task communicator, overtake, collision and race analysers: small helpers whose properties would be easier than the ones here.
