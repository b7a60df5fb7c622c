# Verified model of the reference system's bookkeeping

The reference system moves messages between nodes and keeps account of where they have
been. This project models that accounting in Dafny and proves what it promises:

- **Node history** (`NodeHistory`, `Sample`, `HistoryRuns`). Every message carries a fixed
  array of per-node snapshots. `set_sample` and `merge_history_into_sample` update it in
  place. The array stands for a map from node names to newest snapshots; merging is the
  join of two such maps, cut off where the 63 slots are full.
- **Source roots and completion records** (`SourceRoots`, `Json`, `CompletionRecord`).
  Roots are extracted from a history, a reference is chosen, and one line of JSON is
  printed. A reader written from RFC 8259 recovers every field from that line.
- **Delivery tracking** (`TrackingState`, `TrackingWriter`, `TrackingRuns`, `HandleRuns`,
  `Watermarks`). Callbacks, events and delivery reports interleave under a mutex; the
  reporter reads the clock outside it.
- **Pending service requests** (`PendingRequests`). Senders, responders and pruners share
  one locked table.
- **Source schedules** (`SourceSchedule`, `ScheduleText`, `SensorRuns`). A validated table
  of phases with a latched epoch, applied by the sensor's timer callback.
- **Durations** (`Duration`), **running statistics** (`Statistics`) and the **prime
  cruncher** (`NumberCruncher`).

Code that updates objects in place is a class whose methods are specified by functions on
values; the laws are lemmas about those functions. Protocols are functions from a sequence
of steps to a state, in which a step that cannot happen changes nothing, so that a law
holds for every sequence of steps.

Strings are sequences of characters; a byte is a character below 256, and every result
holds for all characters. Clocks, square roots, rcl results, the process-wide counters and
the contents of files are parameters.

Where the code does less than one might expect, the exact extent is proved:

- `set_sample` compares full names and stores truncated ones; a name survives exactly when
  it has at most 47 characters and no NUL (`StoredNameReadsBack`), and names stay unique
  over a run exactly as long as no call files a new slot under a name that is taken
  (`RunKeepsUnique`, `LongNameIsDuplicated`).
- The order of merging is irrelevant exactly when all names fit
  (`MergeOrderIsIrrelevantExactly`).
- `json_quote` in `tracking.hpp`, unlike `json_escape`, writes no JSON when its argument
  has a control character other than line feed and carriage return
  (`QuotedTextReadsBack`).
- A callback can enter at the instant that was just reported as delivered when two clock
  readings are equal; the watermark then falls by one (`RepeatedReadingsFallByOne`). An
  explicit entry time or a second reporter can take it back further. A report falls
  exactly when an earlier watermark is after its clock reading, or is positive and not
  before the entry of an active callback (`ReportFallsExactly`, `MonotoneExactly`).
- Callback tokens wrap after 2^64; handles and callbacks correspond exactly as long as no
  token in use is issued again (`RunKeepsHandles`, `TokenCanBeTaken`).
- `Duration` to message has no lower clamp on exact whole seconds
  (`RoundTripClamps`, `RoundTripKeepsOrder`).
- Two sums and differences of durations escape the bounds checks: the minimum plus itself,
  and zero minus the minimum (`SumIsChecked`, `DifferenceIsChecked`).
- `number_cruncher` stops strictly before the root, so it also counts 6, 8, squares of
  primes and products of twin primes (`PassesIffCounted`).

`dafny verify dfyconfig.toml` verifies the whole project.

## Model

| member | source | states |
|---|---|---|
| `NodeHistory.StoredNameReadsBack` | reference_system/include/reference_system/sample_management.hpp:495-500 | a stored name reads back as itself if and only if it is short and NUL-free |
| `NodeHistory.StoredNameHolds` | reference_system/include/reference_system/sample_management.hpp:495-500 | the buffer holds the first 47 characters of any name, in their places, and NULs beyond it |
| `NodeHistory.UntilNulIsPrefix` | reference_system/include/reference_system/sample_management.hpp:114-121 | the name of any buffer is all that comes before the first NUL, or the whole buffer |
| `NodeHistory.IsNewerIsLexicographic` | reference_system/include/reference_system/sample_management.hpp:457-465 | the order is that of sequence, timestamp and drops as digits of one number; on a tie of the first two the greater drop count is newer |
| `NodeHistory.ViewIsNewest` | reference_system/include/reference_system/sample_management.hpp:457-465 | the map that slots stand for holds, for every name, the lexicographic maximum of (sequence, timestamp, dropped) over the slots with that name, and nothing else |
| `NodeHistory.CompactKeepsView` | reference_system/include/reference_system/sample_management.hpp:545-571 | compaction leaves one slot per distinct name and the same newest snapshots |
| `NodeHistory.CompactIsDigest` | reference_system/include/reference_system/sample_management.hpp:545-571 | compaction leaves, for each name in the order of first appearance, the first of the newest entries of that name, byte for byte |
| `NodeHistory.FittingPrefixIsLongest` | reference_system/include/reference_system/sample_management.hpp:582-586 | the prefix of the source that is taken in is the only longest one whose names fit |
| `NodeHistory.MergeIsBoundedJoin` | reference_system/include/reference_system/sample_management.hpp:541-600 | for all slots: in the order of first appearance over the sample and the longest fitting prefix of the source, the first newest entry of each name, within capacity; cut short if and only if not all names fit |
| `NodeHistory.MergeIsJoin` | reference_system/include/reference_system/sample_management.hpp:541-600 | when all names fit, merging is the full join of the two histories |
| `NodeHistory.SelfMergeCompacts` | reference_system/include/reference_system/sample_management.hpp:541-600 | merging a message into itself only compacts it, and is never cut short |
| `NodeHistory.SetSlotPuts` | reference_system/include/reference_system/sample_management.hpp:467-506 | the snapshot is put under the name that is filed, unless there is no room, and then nothing changes; the exact condition under which names stay unique |
| `NodeHistory.SetSlotPlaces` | reference_system/include/reference_system/sample_management.hpp:475-506 | every slot keeps its place and name; only the first with the name may change, to the given snapshot if that is newer; a new slot comes last, with the stored name and the snapshot, if and only if the name is new and there is room |
| `NodeHistory.LongNameIsDuplicated` | reference_system/include/reference_system/sample_management.hpp:475-500 | for every name that is long or holds a NUL, two calls leave two slots with one name |
| `NodeHistory.SetSlotIsAbove` | reference_system/include/reference_system/sample_management.hpp:467-506 | for any slots and any name, within capacity and no name or snapshot is taken back |
| `SampleManagement.Sample.FirstNamed` | reference_system/include/reference_system/sample_management.hpp:548-554 | the search loops find the first slot with the name |
| `SampleManagement.Sample.SetSample` | reference_system/include/reference_system/sample_management.hpp:467-506 | slots and overflow counter become those of the specification; nothing changes in benchmark mode |
| `SampleManagement.Sample.CompactOne` | reference_system/include/reference_system/sample_management.hpp:546-570 | one turn of the first loop: one more slot is compacted, the ones after it are untouched |
| `SampleManagement.Sample.CompactInPlace` | reference_system/include/reference_system/sample_management.hpp:545-571 | the in-place loop leaves exactly the compacted slots |
| `SampleManagement.Sample.AbsorbOne` | reference_system/include/reference_system/sample_management.hpp:574-598 | one source slot is taken in, or refused for lack of room |
| `SampleManagement.Sample.AbsorbFrom` | reference_system/include/reference_system/sample_management.hpp:573-599 | the second loop takes in source slots up to the first that finds no room |
| `SampleManagement.Sample.MergeHistory` | reference_system/include/reference_system/sample_management.hpp:541-600 | slots and overflow counter become those of the specification; another source is unchanged, and a sample merged into itself is compacted |
| `HistoryRuns.EvaluateIsNewest` | reference_system/include/reference_system/sample_management.hpp:541-600 | after any tree of merges whose names fit, every node has the newest snapshot that any message held |
| `HistoryRuns.MergeOrderIsIrrelevant` | reference_system/include/reference_system/sample_management.hpp:541-600 | any order, grouping and repetition of merging the same messages gives the same history |
| `HistoryRuns.MergeOrderIsIrrelevantExactly` | reference_system/include/reference_system/sample_management.hpp:541-600 | all ways of merging the same messages agree if and only if all their names fit |
| `HistoryRuns.OrderMattersWithoutRoom` | reference_system/include/reference_system/sample_management.hpp:582-586 | for any merges that lack room, another way of merging the same messages gives another history |
| `HistoryRuns.SlotOrderDependsOnMergeOrder` | reference_system/include/reference_system/sample_management.hpp:587-590 | slot order follows merge order |
| `HistoryRuns.OneOperation` | reference_system/include/reference_system/sample_management.hpp:467-600 | one call with a short name keeps names unique and, unless room is lacking, joins what is offered |
| `HistoryRuns.LackingIsUnfit` | reference_system/include/reference_system/sample_management.hpp:487-490 | with unique names, room is lacking if and only if the names held and offered do not fit together |
| `HistoryRuns.RunStaysWithin` | reference_system/include/reference_system/sample_management.hpp:467-600 | over any run the size stays within capacity |
| `HistoryRuns.RunKeepsUnique` | reference_system/include/reference_system/sample_management.hpp:467-600 | throughout any run names are unique if and only if no call files a new slot under a name that is taken |
| `HistoryRuns.ShortNamesFileApart` | reference_system/include/reference_system/sample_management.hpp:475-500 | calls with short, NUL-free names never do that |
| `HistoryRuns.RunNeverGoesBack` | reference_system/include/reference_system/sample_management.hpp:467-600 | over any run, whatever the names, no name disappears and no snapshot goes backwards |
| `HistoryRuns.OverflowCountsCuts` | reference_system/include/reference_system/sample_management.hpp:487-490 | over any run the 64-bit overflow counter has counted exactly the operations that lacked room |
| `HistoryRuns.RunHoldsAllOffered` | reference_system/include/reference_system/sample_management.hpp:467-600 | over any run with short names, no operation lacks room if and only if all offered names fit together, and then the message holds the join of everything offered |
| `HistoryRuns.CounterTellsOverflow` | reference_system/include/reference_system/sample_management.hpp:487-490 | below 2^64 operations the counter is zero if and only if all offered names fit together |
| `SourceRoots.NameOrderIsTotal` | reference_system/include/reference_system/sample_management.hpp:201 | the byte order on names is a strict total order |
| `SourceRoots.NameBeforeIsSmaller` | reference_system/include/reference_system/sample_management.hpp:201 | a name comes before another if and only if it ends or has the smaller character where they part |
| `SourceRoots.ListInKeyOrder` | reference_system/include/reference_system/sample_management.hpp:222-227 | the values of a map by strictly ascending name |
| `SourceRoots.ListingIsUnique` | reference_system/include/reference_system/sample_management.hpp:222-227 | a map has only one such listing |
| `SourceRoots.ExtractSourceRoots` | reference_system/include/reference_system/sample_management.hpp:205-228 | by ascending name, exactly the newest identities that slots hold of the source nodes |
| `SourceRoots.RootsOfSlots` | reference_system/include/reference_system/sample_management.hpp:205-221 | an identity is extracted if and only if its node is a source and some slot has it, while no slot of that node has a later sequence, or a later timestamp in that sequence |
| `SourceRoots.RootsOfJoin` | reference_system/include/reference_system/sample_management.hpp:189-228 | extraction turns the join of histories into the per-name newest (sequence, timestamp) |
| `SourceRoots.RootsOfMerge` | reference_system/include/reference_system/sample_management.hpp:205-228 | without overflow, the roots of a merged message are the newest of the roots of its inputs |
| `SourceRoots.ReferenceOrderIsTotal` | reference_system/include/reference_system/sample_management.hpp:197-203 | the reference order is strict and total |
| `SourceRoots.SelectSourceReference` | reference_system/include/reference_system/sample_management.hpp:230-241 | the first (or last) root by time, name and sequence, or the empty identity when there is none |
| `SourceRoots.ReferenceIsExtreme` | reference_system/include/reference_system/sample_management.hpp:197-241 | for the minimum no root is earlier, none of that time has a smaller name, and none of that name a smaller sequence; dually for the maximum |
| `SourceRoots.ReferenceIsUnique` | reference_system/include/reference_system/sample_management.hpp:230-241 | there is only one such root |
| `SourceRoots.ReferenceIgnoresMergeOrder` | reference_system/include/reference_system/sample_management.hpp:205-241 | roots and reference do not depend on how the messages were merged |
| `SourceRoots.NormalizedSourceRoots` | reference_system/include/reference_system/sample_management.hpp:325-346 | by ascending name, exactly the reference and, at every other non-empty name, the newest identity |
| `SourceRoots.NormalRootsByName` | reference_system/include/reference_system/sample_management.hpp:329-338 | exactly the reference and, at every other non-empty name, the newest identity |
| `SourceRoots.NormalisingIgnoresOrder` | reference_system/include/reference_system/sample_management.hpp:325-346 | the result depends only on the set of the roots |
| `SourceRoots.NormalisingIsIdempotent` | reference_system/include/reference_system/sample_management.hpp:325-346 | normalising again with the same reference changes nothing |
| `Json.JsonEscape` | reference_system/include/reference_system/sample_management.hpp:301-323 | the loop produces the escaped text |
| `Json.EscapedTextReadsBack` | reference_system/include/reference_system/sample_management.hpp:301-323 | between quotes, escaped text reads back as its origin for every string |
| `Json.EscapeIsShortest` | reference_system/include/reference_system/sample_management.hpp:306-319 | of all texts that read as a character the escape is the shortest, and the only one as short but for capital hex digits |
| `Json.ReadsBack` | reference_system/include/reference_system/sample_management.hpp:370-398 | the RFC 8259 reader gives back every rendered JSON value |
| `Json.JsonQuote` | reference_system/include/reference_system/tracking.hpp:37-48 | the text reads as the argument if that is quotable, and as no JSON otherwise |
| `Json.QuotedTextReadsBack` | reference_system/include/reference_system/tracking.hpp:37-48 | the same for every continuation |
| `Json.QuoteIsEscape` | reference_system/include/reference_system/tracking.hpp:40-45 | a quotable character is written as `json_escape` writes it, any other is left as it is |
| `Json.QuoteOntoIsEscape` | reference_system/include/reference_system/tracking.hpp:37-48 | a quotable string, one without other control characters than line feed and carriage return, is written as `json_escape` writes it between quotes |
| `CompletionRecord.FirstAppearancesAreDistinct` | reference_system/include/reference_system/sample_management.hpp:364-369 | the deduplicated lineage has the same names, once each, by first appearance |
| `CompletionRecord.RecordText` | reference_system/include/reference_system/sample_management.hpp:370-398 | the fields between braces, comma-separated, then a line feed |
| `CompletionRecord.RecordReadsBack` | reference_system/include/reference_system/sample_management.hpp:370-399 | the printed line of any record reads back, field by field, as that record |
| `CompletionRecord.RecordHasLayout` | reference_system/include/reference_system/sample_management.hpp:370-399 | the line is one record with the sixteen keys in their order, each root with its three, and a line feed |
| `CompletionRecord.MakeStructuredChainRecord` | reference_system/include/reference_system/sample_management.hpp:348-400 | keys in order; the reader recovers every argument, the roots normalised and the lineage deduplicated |
| `TrackingState.ThroughIsUnique` | reference_system/include/reference_system/tracking.hpp:133-137 | the watermark is determined by the active callbacks and the clock, whatever the order of the loop |
| `TrackingWriters.Watermark` | reference_system/include/reference_system/tracking.hpp:133-137 | the loop finds the latest instant not after now that no active callback has reached |
| `TrackingWriters.TrackingWriter.RegisterProducer` | reference_system/include/reference_system/tracking.hpp:118-119 | creates the producer's state and changes nothing else |
| `TrackingWriters.TrackingWriter.BeginCallback` | reference_system/include/reference_system/tracking.hpp:106-116 | a new token becomes active at the entry time and a live handle holds it |
| `TrackingWriters.TrackingWriter.EndCallback` | reference_system/include/reference_system/tracking.hpp:158-163 | the token is no longer active |
| `TrackingWriters.TrackingWriter.WriteEvent` | reference_system/include/reference_system/tracking.hpp:121-127 | one event line with the producer's next number |
| `TrackingWriters.TrackingWriter.ReportDelivery` | reference_system/include/reference_system/tracking.hpp:129-142 | one delivery line with the producer's next number and watermark |
| `TrackingWriters.Callback.Move` | reference_system/include/reference_system/tracking.hpp:82-84 | the new handle takes over and the old one is empty |
| `TrackingWriters.Callback.Assign` | reference_system/include/reference_system/tracking.hpp:85-92 | the old callback is ended, the other taken over; self-assignment changes nothing |
| `TrackingWriters.Callback.Finish` | reference_system/include/reference_system/tracking.hpp:93-95 | a live handle ends its callback and becomes empty |
| `HandleRuns.RunKeepsHandles` | reference_system/include/reference_system/tracking.hpp:74-116 | throughout any run active callbacks and live handles correspond one to one if and only if every callback is begun under a token not in use, and then each is released exactly once |
| `HandleRuns.MovesHandOver` | reference_system/include/reference_system/tracking.hpp:82-95 | after a move the target holds what the source held and the source nothing; what an assigned or destroyed handle held, and nothing else, is no longer active; self-assignment changes nothing |
| `HandleRuns.ShortRunTokensAreFree` | reference_system/include/reference_system/tracking.hpp:145-151 | in a run of fewer than 2^64 steps no token is ever issued twice |
| `HandleRuns.ShortRunReleasesOnce` | reference_system/include/reference_system/tracking.hpp:93-99 | in such a run the correspondence holds and no token is released twice |
| `HandleRuns.TokenCanBeTaken` | reference_system/include/reference_system/tracking.hpp:145-151 | after 2^64 - 1 others a callback gets a token that is still in use |
| `HandleRuns.RunIsHeld` | reference_system/include/reference_system/tracking.hpp:74-99 | in every run, even then, an active callback has a live handle |
| `HandleRuns.NoHandleNoDelay` | reference_system/include/reference_system/tracking.hpp:129-142 | in every run, with no live handle the next report's watermark is its clock reading |
| `Watermarks.ReportAppends` | reference_system/include/reference_system/tracking.hpp:129-142 | a report adds one line with the watermark and leaves every active callback alone |
| `Watermarks.ReportIsBelow` | reference_system/include/reference_system/tracking.hpp:129-142 | in every state a report is below an instant if and only if its reading is, or a callback that entered no later is active |
| `Watermarks.RunReportsClear` | reference_system/include/reference_system/tracking.hpp:106-142 | in every run with clock-based begins and any reporters, nothing ever reported for a producer is after the entry of an active callback, nor at it if readings strictly increase |
| `Watermarks.RunStaysBehindClock` | reference_system/include/reference_system/tracking.hpp:226-240 | in every run no watermark is ahead of the clock |
| `Watermarks.LaterCallbackIsNotEarlier` | reference_system/include/reference_system/tracking.hpp:106-110 | a callback begun by the clock after a report enters no earlier than its watermark, and later if readings strictly increase |
| `Watermarks.ReportFallsExactly` | reference_system/include/reference_system/tracking.hpp:129-142 | in every run, the exact condition under which the next report falls below an earlier one: for any begins and reporters, for one reporter, for clock-based begins, for both, and for strictly increasing readings |
| `Watermarks.MonotoneExactly` | reference_system/include/reference_system/tracking.hpp:129-142 | in every run whatsoever the watermarks never fall if and only if no report was one to fall by that condition |
| `Watermarks.WatermarkIsMonotone` | reference_system/include/reference_system/tracking.hpp:129-142 | with one reporter and clock-based begins, a producer's watermarks never fall for strictly increasing readings and never fall more than one below any earlier one otherwise |
| `Watermarks.RepeatedReadingsFallByOne` | reference_system/include/reference_system/tracking.hpp:106-110 | from every instant but zero the watermark can fall by one when readings repeat |
| `Watermarks.ExplicitEntryFallsFurther` | reference_system/include/reference_system/tracking.hpp:112-116 | with an explicit entry time it can fall to just before that entry, however far back |
| `Watermarks.TwoReportersCanCross` | reference_system/include/reference_system/tracking.hpp:237 | with two reporters it can fall from any later reading to any earlier one |
| `TrackingRuns.RunNumbersRecords` | reference_system/include/reference_system/tracking.hpp:121-142 | in every run the lines of a producer are numbered 0, 1, 2, ... modulo 2^64 |
| `NumberCruncher.PassesIffCounted` | reference_system/include/reference_system/number_cruncher.hpp:25-32 | the trial division passes exactly primes, squares of primes, products of twin primes, 6 and 8 |
| `NumberCruncher.Crunch` | reference_system/include/reference_system/number_cruncher.hpp:21-39 | the number of such numbers from 3 to below the maximum |
| `PendingRequests.Client.AsyncSendRequest` | ros2-picas/rclcpp/include/rclcpp/client.hpp:797-810 | a failed send changes nothing; a new number is stored with the given time and callback, an older request under the same number is kept |
| `PendingRequests.Client.GetAndErase` | ros2-picas/rclcpp/include/rclcpp/client.hpp:812-826 | the entry, which is then gone, or nothing |
| `PendingRequests.Client.HandleResponse` | ros2-picas/rclcpp/include/rclcpp/client.hpp:549-581 | one completion for a pending request, none for an unknown one |
| `PendingRequests.Client.RemovePendingRequest` | ros2-picas/rclcpp/include/rclcpp/client.hpp:703-708 | true exactly when there was such a request; it is gone |
| `PendingRequests.Client.PrunePendingRequests` | ros2-picas/rclcpp/include/rclcpp/client.hpp:750-757 | an empty table and the number of requests there were |
| `PendingRequests.Client.PruneRequestsOlderThan` | ros2-picas/rclcpp/include/rclcpp/client.hpp:766-785 | exactly the requests sent at the point or later remain, unchanged; the others are listed once each and counted |
| `PendingRequests.RunConservesRequests` | ros2-picas/rclcpp/include/rclcpp/client.hpp:703-826 | in every interleaving each sent request is in exactly one place and completes at most once |
| `PendingRequests.RequestsLiveOneLife` | ros2-picas/rclcpp/include/rclcpp/client.hpp:703-826 | in every interleaving each request has exactly one fate, and each step moves it as that request's own life has it: stored with its time and callback, expired if sent before the point, dropped, taken or answered by number, and otherwise untouched |
| `PendingRequests.NoOwedResponseIsDropped` | ros2-picas/rclcpp/include/rclcpp/client.hpp:797-826 | a response to a sent request is dropped if and only if that was already taken, completed, removed or pruned |
| `PendingRequests.FatesAreFinal` | ros2-picas/rclcpp/include/rclcpp/client.hpp:703-826 | what was completed, removed or pruned stays so |
| `SourceSchedules.CheckToken` | reference_system/include/reference_system/source_schedule.hpp:81-88 | accepts exactly non-empty tokens of letters, digits, hyphens, underscores and dots, other than one or two dots |
| `SourceSchedules.ReadPhases` | reference_system/include/reference_system/source_schedule.hpp:30-39 | the phases as spelled, if and only if they are well formed together |
| `SourceSchedules.ReadPlan` | reference_system/include/reference_system/source_schedule.hpp:18-45 | the plan as spelled, if and only if it is well formed and for this producer |
| `SourceSchedules.AcceptsExactly` | reference_system/include/reference_system/source_schedule.hpp:24-44 | the exact condition, word by word, under which a schedule is accepted, and what the plan then holds |
| `ScheduleText.PrintedReadsBack` | reference_system/include/reference_system/source_schedule.hpp:24 | a printed number reads back as itself if it fits 64 bits, and is refused otherwise |
| `ScheduleText.PrintedSizeReadsBack` | reference_system/include/reference_system/source_schedule.hpp:23-24 | a printed count reads back modulo 2^64, as extraction into an unsigned number does, and is refused if too long |
| `ScheduleText.ReadIntExactly` | reference_system/include/reference_system/source_schedule.hpp:24-34 | the exact words that read as a signed 64-bit number: an optional sign and digits, read from the left |
| `ScheduleText.ReadSizeExactly` | reference_system/include/reference_system/source_schedule.hpp:23-24 | the same for a size, where a minus sign wraps around |
| `ScheduleText.WrittenPlanReadsBack` | reference_system/include/reference_system/source_schedule.hpp:24-34 | the words of any plan of three phases read back as that plan |
| `ScheduleText.WrittenPlanIsAccepted` | reference_system/include/reference_system/source_schedule.hpp:24-44 | such words are accepted if and only if the plan is well formed and for this producer |
| `ScheduleText.StartRecordReadsBack` | reference_system/include/reference_system/source_schedule.hpp:50-57 | a written start record is accepted if and only if session, boot and hash are the plan's and the epoch leaves room for the duration, and then gives that epoch |
| `SourceSchedules.StartEpochExactly` | reference_system/include/reference_system/source_schedule.hpp:50-57 | the exact condition, word by word, under which a start record is accepted |
| `SourceSchedules.RequestedFits` | reference_system/include/reference_system/source_schedule.hpp:65 | the requested time is the epoch plus the offset and never overflows 64 bits |
| `SourceSchedules.SourceSchedule.Due` | reference_system/include/reference_system/source_schedule.hpp:47-63 | latches the epoch once; returns exactly the phases from the cursor on whose time has come, in order |
| `SourceSchedules.DueHolds` | reference_system/include/reference_system/source_schedule.hpp:60-65 | a phase from the cursor on is returned if and only if the epoch plus its offset has come |
| `SourceSchedules.SourceSchedule.Applied` | reference_system/include/reference_system/source_schedule.hpp:64 | the cursor moves behind any index, and then wraps as a 64-bit number does |
| `SensorRuns.Sensor.ApplySourceSchedule` | reference_system/include/reference_system/nodes/rclcpp/sensor.hpp:92-115 | epoch, cursor, timer period and log become those of the specification; fails exactly on an invalid start record |
| `SensorRuns.Sensor.WriteRecords` | reference_system/include/reference_system/nodes/rclcpp/sensor.hpp:97-113 | the last due phase is logged as applied and its period given to the timer, the ones before it are logged as skipped, each with its own clock reading |
| `SensorRuns.PhasesApplyInOrder` | reference_system/include/reference_system/nodes/rclcpp/sensor.hpp:92-115 | over any calls every phase is logged at most once, in order, with its requested time |
| `SensorRuns.CallLogs` | reference_system/include/reference_system/nodes/rclcpp/sensor.hpp:95-114 | a call logs the phases that it consumes, each with epoch plus offset and its own clock reading; exactly the last is applied and sets the period of its phase, the others are skipped |
| `SensorRuns.PhasesAreNotEarly` | reference_system/include/reference_system/nodes/rclcpp/sensor.hpp:95-113 | if the clock does not go back, none is logged before the epoch plus its offset |
| `SensorRuns.TimerFollowsLog` | reference_system/include/reference_system/nodes/rclcpp/sensor.hpp:97-114 | over any calls the log accounts for the timer: each record starts from the period in force, applied ones set that of their phase, skipped ones none, the last is applied, and the timer has the period of the last phase consumed |
| `SensorRuns.TimerIsRestored` | reference_system/include/reference_system/source_schedule.hpp:40-44 | after a call at the end of the schedule all phases are consumed and the timer has its initial period again |
| `SensorRuns.EpochIsLatched` | reference_system/include/reference_system/source_schedule.hpp:48-59 | the epoch never changes once set, and the log only grows |
| `SensorRuns.NoPhaseIsLeft` | reference_system/include/reference_system/source_schedule.hpp:60-62 | a call leaves exactly the phases that were left before and are not due yet |
| `Durations.RoundTripClamps` | ros2-picas/rclcpp/src/rclcpp/duration.cpp:47-88 | a message holds the duration clamped to its range if and only if the duration is not misplaced by the cast, and a later one otherwise |
| `Durations.ToMessageExactly` | ros2-picas/rclcpp/src/rclcpp/duration.cpp:61-88 | the message for every duration, in floor seconds: saturated, exact, clamped, or the seconds modulo 2^32 when whole seconds are below the range |
| `Durations.MessageReadsBack` | ros2-picas/rclcpp/src/rclcpp/duration.cpp:47-88 | a message with less than a second of nanoseconds comes back as itself; further nanoseconds count one each |
| `Durations.RoundTripIsIdentity` | ros2-picas/rclcpp/src/rclcpp/duration.cpp:47-88 | there and back is the identity if and only if the floor seconds fit 32 bits or the duration is the saturation value |
| `Durations.RoundTripKeepsOrder` | ros2-picas/rclcpp/src/rclcpp/duration.cpp:61-88 | a duration keeps its place before all later ones if and only if it is not misplaced |
| `Durations.SomeAreMisplaced` | ros2-picas/rclcpp/src/rclcpp/duration.cpp:69-77 | the whole second just below the 32-bit range comes back as the largest one |
| `Durations.FromRmwTimeSaturates` | ros2-picas/rclcpp/src/rclcpp/duration.cpp:261-280 | the exact time or the maximum, with no wrap on the way, for all 64-bit pairs |
| `Durations.RmwTimeRoundTrip` | ros2-picas/rclcpp/src/rclcpp/duration.cpp:243-280 | every non-negative duration is split into whole seconds and less than a second of nanoseconds, and comes back; negative ones are refused |
| `Durations.SumIsChecked` | ros2-picas/rclcpp/src/rclcpp/duration.cpp:136-162 | for all operands, exactly when a sum overflows, underflows, is exact or undefined; all as the symmetric range has it, save the named minimum cases |
| `Durations.DifferenceIsChecked` | ros2-picas/rclcpp/src/rclcpp/duration.cpp:164-191 | the same for differences |
| `Durations.SumUndoesDifference` | ros2-picas/rclcpp/src/rclcpp/duration.cpp:153-191 | adding back an exact difference gives the duration again, if and only if it is not the minimum less a negative duration other than the minimum; that sum is refused |
| `Statistics.StatisticValue.Set` | reference_system/include/reference_system/sample_management.hpp:613-626 | the fields change as one update of the specification |
| `Statistics.StatisticsAreExact` | reference_system/include/reference_system/sample_management.hpp:602-627 | after any values: number, current value, exact mean, root of the population variance about that mean, minimum and maximum |
| `Statistics.RadicandIsNonNegative` | reference_system/include/reference_system/sample_management.hpp:621-623 | the square root is never taken of a negative number |

## Left out

- The executors, callback groups, wait sets, publishers, subscriptions, services and type adapters: wrappers and scheduling code outside this model.
- `print_sample_path`, `write_structured_record`, stdout locking and the emit functions: output plumbing.
- `build_node_map`, the lineage validators, `sum_drops`, `elapsed_ns` and `deadline_status`: easy single-loop or single-expression claims over fixed node lists.
- Provenance records and the text of tracking lines (`with_identity`): only their numbering and watermarks are modelled.
- Json.ReadsBack: the reader takes no white space, negative numbers, fractions or surrogate escapes, none of which the writers produce; bytes above 127 are passed through without regard to UTF-8.
- NumberCruncher.Crunch: the square root is the exact integer part; the rounding of large integers to double is not modelled.
- PendingRequests.RunConservesRequests: rcl is taken to hand out distinct sequence numbers.
- SourceSchedules.ReadPlan: the file is a sequence of words, each a whole token; a number directly followed by other characters, which a stream would split, is refused.
- SensorRuns.Sensor.ApplySourceSchedule: failures of the rcl timer and of the record file are not modelled.
- Durations.SumIsChecked: the absolute value of the minimum is taken as on two's-complement hardware, although the language leaves it undefined.
- Duration scaling and conversions to and from floating-point seconds: rounding of floating-point numbers is not modelled.
- Statistics.StatisticsAreExact: real arithmetic without rounding, the square root given by its defining property.
