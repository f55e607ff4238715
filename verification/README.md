# MemMux: a verified model of its I/O-free core

MemMux supervises coding agents on one machine. This project models the parts of it that compute
without I/O and proves what they promise, for all inputs and all runs.

| file | models |
|---|---|
| `Ring`, `Line`, `Truncate`, `Utf8`, `Governor`, `RateWindows`, `Splitter`, `Chunking`, `Capture`, `Entries` | bounded terminal capture: text is split into lines, governed, cut to a cap and kept in a capped, run-collapsing ring |
| `History`, `Scrollback` | evicted lines in chunk files, paged reads, and capture and history together |
| `ProcessTree`, `Memory`, `Attribution` | the process tree with cycles and missing parents, the kill list, and three byte accounts of one snapshot |
| `CivilDate` | dates from seconds since the epoch |
| `Fnv` | the FNV-1a digest and the checkpoint integrity field |
| `Slug`, `SlugText`, `GitRef` | task slugs and branch names |
| `Ewma`, `Admission`, `AdmissionOrder`, `Envelope` | peak prediction, admission planning and the memory budget of a host |
| `PaneLayout`, `PaneGeometry`, `PaneModel`, `PaneFocus`, `PaneTiling`, `PaneChanges` | the tiling tree of panes, where panes lie, the state of the pane multiplexer, spatial focus moves, clicks, and what each operation does to the screen |
| `Lifecycle` | the task state machine and its history |
| `Prelude`, `Radix` | bytes, options, string order, positional notation |

Objects that the program updates in place are classes. Each method is proved to leave the state that
a specification function names (`AfterPush`, `Govern`, `AfterIngest`, `Next`, `Try` and others), and
the theorems are about every run of those functions.

Where the code and its own documentation disagree, the model follows the code:

- The comment at `crates/memmux-pty/src/governance.rs:102` calls the quota final. It is not:
  `QuotaIsNotALatch` stores a line after a refusal. `RefusedIff` says exactly which lines are refused,
  and `QuotaLatchesAtSize` how far the comment does hold.
- `crates/memmux-worktree/src/slug.rs:3-5` promises distinct names for tasks of the same intent.
  `NamesCollide` gives two seeds with the same name. `NamesDifferIff` says when in terms of the
  digests, and `OneCharacterKeepsNamesApart` gives seeds a caller can rely on.
- A ring with `max_lines` 0 does not collapse repeated lines (`RingIsCanonicalIff`), and a pushed
  `Repeated` entry counts as one line when it is folded into the newest entry (`PushRows`).
- `open_pane` promises that an open pane is only focused, and `close_pane` that the pane is closed.
  `OpenOnlyFocusesIff` and `CloseClosesIff` say exactly when they hold, in any state: for an agent
  open in its own group, while that group stays the same (`ReopenOnlyFocusesIff`,
  `CloseAfterRefreshIff`). When its workspace has been registered in the meantime, reopening opens it a
  second time (`RegisteredWhileOpen`), and terminating it leaves its pane (`TerminatedButOpen`).
- `descendants` and `ancestors` can disagree when a pid is sampled twice; `WalksAgreeIff` says when.
- `focus_dir` promises the nearest pane. Its `i32` distances wrap on very large grids
  (`WideGridSkips`); `FocusIsNearestIff` says on which grids the promise holds.

What the theorems measure by is itself pinned down in elementary terms: the bytes of an entry by the text
it holds (`SumBytesIsHeld`), a character boundary by the characters of UTF-8 text (`BoundaryIff`), the
memory of processes by three plain sums (`TotalIsMemory`), the ranking of candidates by scores and ids
(`AdmittedIffFits`), directions by the coordinates of centres (`FocusMovesIff`), the rate limit by counts
of lines (`Verdict`), slugs character by character (`SlugGrows`), and the lifecycle table by how each
state is entered and which can be reached (`EnteredFromIff`, `ReachableIff`).

`dafny verify dfyconfig.toml` checks everything.

## Model

| member | source | states |
|---|---|---|
| `Ring.EnforcedIsLeast` | crates/memmux-pty/src/ring.rs:87-99 | Eviction drops a prefix of the entries into `evicted`, the byte counter stays exact, the rest is within both caps (a single entry may exceed the byte cap), and every shorter prefix would have left too much. |
| `Ring.PushRecord` | crates/memmux-pty/src/ring.rs:56-99 | From any state within its caps, a push leaves the ring within its caps with an exact byte counter, counts one line, and changes the log of evicted and resident entries only at its newest entry. |
| `Ring.PushRows` | crates/memmux-pty/src/ring.rs:52-85 | Total rows grow by the rows of the pushed line if and only if the line is not a collapsed run (of other than one row) folded into the newest entry: exactly where pushing a ready-made `Repeated` loses rows. |
| `Ring.RunsEncode` | crates/memmux-pty/src/ring.rs:51-80 | Run-length collapsing of plain lines is lossless (expanding gives the lines back) and canonical (no two neighbours share a key, every run has at least two rows). |
| `Ring.CanonicalIsRuns` | crates/memmux-pty/src/ring.rs:51-80 | The canonical encoding of a sequence of lines is unique, so the collapsed log is the only one the ring may show. |
| `Ring.RingRecord` | crates/memmux-pty/src/ring.rs:51-104 | Over every run of pushes and drains, for any caps: exact byte counter, both caps, every push counted, and drained + evicted + resident entries are exactly the run-length encoding of all pushed lines (with `max_lines` 0: the lines themselves). |
| `Ring.RecordRestores` | crates/memmux-pty/src/line.rs:54-70 | A log explained by plain lines expands to exactly those lines, and its rendered rows are the lines ingested. |
| `Ring.RingIsLossless` | crates/memmux-pty/src/ring.rs:56-124 | Over every run, expanding drained, evicted and resident entries gives the pushed lines in order, and their rows add up to `total_ingested`. |
| `Ring.RingIsCanonicalIff` | crates/memmux-pty/src/ring.rs:51-99 | No two neighbouring entries of the whole log share a collapse key on every run, if and only if `max_lines` is at least 1. |
| `Ring.NoRoomToCollapse` | crates/memmux-pty/src/ring.rs:88-99 | With `max_lines` 0, a concrete run shows the same line twice in a row. |
| `Line.SumBytesIsHeld` | crates/memmux-pty/src/line.rs:43-52 | The byte count of any entries is 24 for each entry plus the length of all their text laid end to end, a cut line counting its head and its artifact name. |
| `Ring.RingHoldsWithinCaps` | crates/memmux-pty/src/ring.rs:51-104 | Over every run the byte counter is that amount for the resident entries, and two or more of them never hold more than `max_bytes`, nor more than `max_lines` entries. |
| `Ring.PushEvictsLeast` | crates/memmux-pty/src/ring.rs:56-99 | A push of a line with another text than the newest entry evicts exactly the fewest oldest entries whose removal brings the text held within the caps. |
| `Ring.RepeatHoldsNoMore` | crates/memmux-pty/src/ring.rs:56-80 | A push of the text of the newest entry evicts nothing, holds no more text, and adds one row to that entry. |
| `Ring.BoundedBuffer.constructor` | crates/memmux-pty/src/ring.rs:41-49 | A new buffer is empty. |
| `Ring.BoundedBuffer.Push` | crates/memmux-pty/src/ring.rs:56-85 | The in-place push leaves exactly the state the theorems above are about; the text held stays within the caps. |
| `Ring.BoundedBuffer.EnforceCaps` | crates/memmux-pty/src/ring.rs:88-99 | The eviction loop terminates and leaves the enforced state: from an exact byte counter, the text held is within the caps. |
| `Ring.BoundedBuffer.DrainEvicted` | crates/memmux-pty/src/ring.rs:102-104 | Hands out all evicted entries and empties only that list. |
| `Truncate.CutPoint` | crates/memmux-pty/src/truncate.rs:32-37 | The cut is the largest character boundary at or below the cap (a cap of 0 counts as 1). |
| `Truncate.TruncateLine` | crates/memmux-pty/src/truncate.rs:28-43 | The back-off loop keeps a line that fits and otherwise cuts it at that point, with the full length and content. |
| `Truncate.HeadNearlyFillsCap` | crates/memmux-pty/src/truncate.rs:24-37 | For text whose characters have at most three continuation bytes, the head is at most three bytes short of the cap. |
| `Utf8.BoundaryIff` | crates/memmux-pty/src/truncate.rs:34 | In UTF-8 text (section 3 of RFC 3629) the byte test finds exactly the places between two characters, for all texts. |
| `Utf8.CutIsLongest` | crates/memmux-pty/src/truncate.rs:28-43 | UTF-8 text is cut behind the last character that ends within the cap: the head is the encoding of the longest run of leading characters that fits, at most three bytes short of the cap. |
| `Governor.ByteAccount` | crates/memmux-pty/src/governance.rs:102-114 | Over any run `artifact_bytes` is the total size of the lines answered `Store` modulo 2^64, equal to it exactly while it fits; with a limit below `u64::MAX` the total never exceeds the limit. |
| `Governor.QuotaAlarmOnce` | crates/memmux-pty/src/governance.rs:102-114 | The quota event fires exactly once if some line was refused for quota, never otherwise, and the flag says which. |
| `Governor.RefusedIff` | crates/memmux-pty/src/governance.rs:102-114 | A line is refused if and only if it does not fit in what the stored lines left of the limit, and the limit is below `u64::MAX`. |
| `Governor.QuotaLatchesAtSize` | crates/memmux-pty/src/governance.rs:102-114 | Once a line was refused, every later line of at least its size is refused: how far the quota is final. |
| `Governor.QuotaIsNotALatch` | crates/memmux-pty/src/governance.rs:102-114 | A concrete run stores a line after a refusal, against the comment that nothing more is persisted. |
| `Governor.SamplingIsExact` | crates/memmux-pty/src/governance.rs:116-138 | Of the k lines that took the over-rate path, over all windows together, exactly floor(k / ratio) were stored. |
| `Governor.RateAlarmOncePerWindow` | crates/memmux-pty/src/governance.rs:94-124 | At most one rate event per window, none in a window without an over-rate line, and one by the time of the first over-rate line; the flag says whether the open window has had its event. |
| `RateWindows.CountersAre` | crates/memmux-pty/src/governance.rs:93-138 | Over any run the counters are counts of the lines alone: the window began with the last line that came 1000 ms or more after the window before it began; the line counter counts the lines of that window; the sampling counter counts the lines that found their window full. |
| `RateWindows.Verdict` | crates/memmux-pty/src/governance.rs:93-145 | The exact outcome of every line: refused if it does not fit in what the stored lines left, with an alarm naming the limit the first time; stored up to the lines per window; beyond that stored at every `ratio`th such line, with an alarm naming the count at the first one of the window. |
| `RateWindows.VerdictStays` | crates/memmux-pty/src/governance.rs:93-145 | Later lines never change an outcome, so this holds of every line of a run. |
| `Governor.OutputGovernor.constructor` | crates/memmux-pty/src/governance.rs:80-90 | A new governor is in the initial state. |
| `Governor.OutputGovernor.OnLine` | crates/memmux-pty/src/governance.rs:93-145 | The in-place decision returns and leaves exactly the outcome and state the run theorems are about. |
| `Splitter.MarkingExists` | crates/memmux-pty/src/capture.rs:77-86 | Every text is lines with terminators `\n`, `\r` or `\r\n` put back together, and a tail without a terminator. |
| `Splitter.MarkingIsUnique` | crates/memmux-pty/src/capture.rs:77-86 | However such lines and terminators are marked (a lone `\r` only where no `\n` follows), the splitting loop recovers exactly those lines and that tail. |
| `Splitter.SplitAppend` | crates/memmux-pty/src/capture.rs:71-86 | Splitting at any point not inside `\r\n`, the tail joined to the second half, gives the lines of the whole. |
| `Splitter.SplitCrLf` | crates/memmux-pty/src/capture.rs:79-84 | A boundary inside `\r\n` gives exactly one additional, empty line. |
| `Splitter.FeedTwice` | crates/memmux-pty/src/capture.rs:74-96 | Two chunks give the same lines and pending text as one if the boundary is clean, and otherwise differ in the number of lines or in the pending text. |
| `Splitter.FeedLeavesShortTail` | crates/memmux-pty/src/capture.rs:71-96 | After a chunk the pending text has no terminator and is at most the line cap long. |
| `Capture.TwoChunksIff` | crates/memmux-pty/src/capture.rs:74-96 | Ingesting two chunks at one timestamp leaves the identical state (ring, governor, artifacts, events, pending) as ingesting them joined, if and only if the boundary does not split `\r\n` and no over-long tail precedes a non-empty chunk. |
| `Chunking.FeedAllIff` | crates/memmux-pty/src/capture.rs:74-96 | Any number of chunks gives the lines and pending text of the whole if every boundary between chunks is clean; if one is not, the number of lines or the pending text differs, whatever follows. |
| `Capture.ChunksDoNotMatterIff` | crates/memmux-pty/src/capture.rs:74-96 | Any number of chunks at one timestamp leaves the identical state as the whole text at once, if and only if every boundary is clean. |
| `Capture.CaptureExplained` | crates/memmux-pty/src/capture.rs:74-151 | Over any run of ingest, flush and drain calls the state is a function of the lines fed in: governor state, all events, numbered artifacts, caps, log; the pending tail has no terminator and fits the line cap. |
| `Capture.CaptureIsLossless` | crates/memmux-pty/src/capture.rs:74-151 | Over any run, expanding all drained, evicted and resident entries and reading cut lines from their artifacts gives exactly, in order, the lines the governor answered `Store`. |
| `Capture.RowsAreStoredLines` | crates/memmux-pty/src/capture.rs:74-166 | Over any run the entries show one row for each stored line, and `total_ingested` counts each once. |
| `Capture.CutEntriesAreFaithful` | crates/memmux-pty/src/capture.rs:115-134 | Every `Truncated` entry names an artifact whose length is `full_bytes`, of which `head` is the longest prefix within the cap that ends on a character boundary. |
| `Capture.CutEntriesAreDistinct` | crates/memmux-pty/src/capture.rs:122-132 | Different `Truncated` entries never share an artifact. |
| `Entries.EntriesTellLines` | crates/memmux-pty/src/capture.rs:115-134 | Over any run, entry by entry: a stored line within the cap is kept whole, a longer one is cut with its full length and the longest head within the cap that ends on a character boundary. |
| `Entries.CutTextIsLongest` | crates/memmux-pty/src/capture.rs:115-134 | When such a line is UTF-8 text, its head is the encoding of the longest run of leading characters within the cap, at most three bytes short of it. |
| `Entries.ArtifactsAreNumbered` | crates/memmux-pty/src/capture.rs:122-132 | Over any run the artifacts are named "art_0", "art_1" and so on in the order of their lines, and each is longer than the cap. |
| `Entries.CaptureHoldsWithinCaps` | crates/memmux-pty/src/capture.rs:74-151 | Over any run, however much is fed in, two or more resident entries never hold more text than the byte cap allows, and the byte counter says how much. |
| `Entries.AlarmsAreKept` | crates/memmux-pty/src/capture.rs:106-151 | Over any run the events handed out and still waiting are exactly those the lines raised, one for each, in order. |
| `Capture.CaptureBuffer.constructor` | crates/memmux-pty/src/capture.rs:59-69 | A new capture buffer is empty and owns a new ring and governor. |
| `Capture.CaptureBuffer.IngestLine` | crates/memmux-pty/src/capture.rs:106-136 | One governed line: events, artifacts, counter and ring change as the run theorems assume. |
| `Capture.CaptureBuffer.Ingest` | crates/memmux-pty/src/capture.rs:74-96 | The draining loop terminates, takes exactly the lines of the splitting rule in order, and leaves a terminator-free tail within the cap. |
| `Capture.CaptureBuffer.Flush` | crates/memmux-pty/src/capture.rs:99-104 | A non-empty tail becomes a line; an empty one changes nothing. |
| `Capture.CaptureBuffer.DrainEvicted` | crates/memmux-pty/src/capture.rs:139-141 | Hands out the evicted entries and changes nothing else. |
| `Capture.CaptureBuffer.DrainArtifacts` | crates/memmux-pty/src/capture.rs:144-146 | Hands out the pending artifacts and changes nothing else. |
| `Capture.CaptureBuffer.DrainEvents` | crates/memmux-pty/src/capture.rs:149-151 | Hands out the pending events and changes nothing else. |
| `History.FlushedKeepsLog` | crates/memmux-pty/src/chunkstore.rs:68-92 | Writing out the pending lines keeps the log, empties `pending`, and adds one chunk unless nothing was pending. |
| `History.AppendedLog` | crates/memmux-pty/src/chunkstore.rs:52-61 | The log grows by exactly the appended lines, whatever the chunk size, and a full chunk never stays in memory. |
| `History.ChunksAreFull` | crates/memmux-pty/src/chunkstore.rs:52-61 | Appending writes a chunk for every `chunk_lines` lines, those that were waiting counted, each of exactly that many lines; the remainder waits. |
| `History.ChunkStore.constructor` | crates/memmux-pty/src/chunkstore.rs:37-49 | A new store has an empty log and a chunk size of at least 1. |
| `History.ChunkStore.FlushChunk` | crates/memmux-pty/src/chunkstore.rs:68-92 | The in-place flush leaves the flushed state; the log is kept. |
| `History.ChunkStore.Append` | crates/memmux-pty/src/chunkstore.rs:52-61 | The appending loop leaves the appended state, flushes of full chunks included; the log grows by exactly the appended lines. |
| `History.TakeInRange` | crates/memmux-pty/src/chunkstore.rs:117-123 | The inner loop takes exactly the part of the page that lies in one stretch of lines. |
| `History.PageAcross` | crates/memmux-pty/src/chunkstore.rs:108-135 | A page of a longer log is the page of its beginning completed from what was added. |
| `History.ChunkStore.ReadHistory` | crates/memmux-pty/src/chunkstore.rs:108-135 | Returns exactly the slice of all appended lines from `cursor`, at most `n` of them, whatever the chunk size and flush points, also when chunks are skipped or the loop stops early. |
| `History.PagesCompose` | crates/memmux-pty/src/chunkstore.rs:104-108 | Two consecutive pages are the one page of both lengths. |
| `History.PagingRebuildsLog` | crates/memmux-pty/src/chunkstore.rs:104-108 | Reading successive pages until one is empty rebuilds the log from the starting point. |
| `Scrollback.SpillEvicted` | crates/memmuxd/src/daemon.rs:1318-1319 | Moving evicted lines to the history is exactly the spill step of the run theorems: those lines, in order, and nothing else. |
| `Scrollback.RunTracks` | crates/memmuxd/src/daemon.rs:1312-1331 | Over every run of ingest, flush, spill and drain operations on a buffer and its chunk store, the log of the store is exactly what the buffer has evicted and spilled, and less than one chunk is pending. |
| `Scrollback.PagedCaptureIsLossless` | crates/memmuxd/src/daemon.rs:1312-1331 | End to end: after every such run and for any chunk and page size, pages read from the store, then what is still in the buffer, restore exactly the stored lines in order. |
| `ProcessTree.FromSamples` | crates/memmux-metrics/src/tree.rs:19-31 | The last sample of each pid is kept, and each child list is the strictly ascending list of the pids ever sampled with that parent. |
| `ProcessTree.LinkedIff` | crates/memmux-metrics/src/tree.rs:15-31 | Child lists and parent links agree if and only if no pid was sampled under two parents. |
| `ProcessTree.DistinctPidsLink` | crates/memmux-metrics/src/tree.rs:15-31 | In particular they agree, and are consistent, when the pids are distinct. |
| `ProcessTree.WalksAgreeIff` | crates/memmux-metrics/src/tree.rs:19-103 | Downward and upward reachability agree from every sampled process, for repeated pids too, if and only if every sampled parent a pid was ever listed under is still one of its ancestors; links are consistent exactly then. |
| `ProcessTree.StaleChild` | crates/memmux-metrics/src/tree.rs:22-25 | A concrete snapshot with a repeated pid keeps a child below a process that is no ancestor of it, as `WalksAgreeIff` says it must. |
| `ProcessTree.Descendants` | crates/memmux-metrics/src/tree.rs:66-79 | The search terminates on any graph and returns, without duplicates and nearer ones first, exactly the processes other than `pid` reachable by child links. |
| `ProcessTree.Ancestors` | crates/memmux-metrics/src/tree.rs:84-103 | The walk terminates on any graph and returns, nearest first and without duplicates, exactly the other processes reachable by parent links through sampled processes. |
| `ProcessTree.BelowIffAbove` | crates/memmux-metrics/src/tree.rs:58-103 | With consistent links and a sampled `r`, `d` is reachable downwards from `r` if and only if `r` is reachable upwards from `d`. |
| `ProcessTree.WalksAgree` | crates/memmux-metrics/src/tree.rs:66-103 | With consistent links, cycles and missing parents included, `d` is in `descendants(r)` if and only if `r` is in `ancestors(d)`, for a sampled `r` other than `d`. |
| `ProcessTree.DirectionsAgreeIff` | crates/memmux-metrics/src/tree.rs:66-103 | Downward and upward reachability agree for all other processes if and only if `r` was sampled or has no children. |
| `ProcessTree.TerminationTargets` | crates/memmux-metrics/src/terminate.rs:43-50 | The kill list is the strictly ascending list of exactly the root and its descendants with pid above 1. |
| `Attribution.SubtreeAccountedBytes` | crates/memmux-metrics/src/tree.rs:111-123 | The loop returns the memory of the process and all its descendants, each sampled process counted once, in PSS, else footprint, else RSS. |
| `Attribution.NearestAncestorIn` | crates/memmux-metrics/src/tree.rs:126-131 | Returns the first root met going up from the process, itself included, and nothing if there is none at any distance. |
| `Attribution.NearestIsUnique` | crates/memmux-metrics/src/tree.rs:126-131 | There is at most one such nearest root. |
| `Memory.MemoryAdds` | crates/memmux-metrics/src/sample.rs:48-52 | The memory of a set of processes is three plain sums (PSS of those that report it, footprint of those that report only that, RSS of the others), and one more process adds to exactly one of them. |
| `Attribution.TotalIsMemory` | crates/memmux-metrics/src/sample.rs:48-73 | The total of any set of processes, in which all three accounts are counted, is those three sums. |
| `Attribution.ClassIs` | crates/memmux-metrics/src/attribution.rs:157-194 | Each sampled process is owned by the task, or shared by the service, of the last registration of the first root met on its way up; with no root on the way it is escaped, for the task the wrapper reported, exactly when one was reported, else unknown. |
| `Attribution.OneDecides` | crates/memmux-metrics/src/attribution.rs:157-194 | There is at most one such registration, and none exactly when there is no root on the way. |
| `Attribution.Attribute` | crates/memmux-metrics/src/attribution.rs:157-194 | Every sampled process gets the class its nearest root or the wrapper report dictates, each byte total is the total of its class, and all together are the three plain sums over all processes. |
| `Attribution.ReportIsUnique` | crates/memmux-metrics/src/attribution.rs:157-194 | That contract determines the whole report, whatever the order of iteration. |
| `Attribution.ClassesAddUp` | crates/memmux-metrics/src/attribution.rs:112-116 | The four class totals add up to the memory of all processes, each counted once, and each is the three plain sums over its class. |
| `Attribution.Partition` | crates/memmux-bench/src/sampler.rs:40-62 | Providers are exactly the sampled processes under some agent root and everything below one; managers those under a manager root that are not providers. |
| `Attribution.SumAccounted` | crates/memmux-bench/src/sampler.rs:72-77 | The sum over a set of pids is its three plain sums, whatever the order of iteration; pids not sampled count nothing. |
| `Attribution.Classify` | crates/memmux-bench/src/sampler.rs:70-89 | Providers and managers are disjoint, each byte figure is the three plain sums over its set, the counts are the sizes of the sets, and the overall total counts each process once. |
| `Attribution.OwnersAgreeIff` | crates/memmux-metrics/src/attribution.rs:162-182 | For any roots, sampled or not, the owned and shared processes are among the providers of `classify`, and are the same processes if and only if every child of an unsampled root is also under a sampled one. |
| `Attribution.OwnedBytesIff` | crates/memmux-metrics/src/attribution.rs:157-194 | Owned plus shared bytes never exceed the provider bytes; they are equal under that condition and, where every process has some memory, only then. |
| `Attribution.OwnersAgreeWithProviders` | crates/memmux-metrics/src/attribution.rs:157-194 | So for sampled roots the owned and shared processes are exactly the providers, and the bytes agree; with task roots only, `owned_bytes` alone equals `provider_bytes`. |
| `Attribution.SubtreesAgreeIff` | crates/memmux-metrics/src/tree.rs:110-123 | Subtree sums of sampled roots never undercount their union, and with roots of positive size they are exact if and only if no root is another or lies under another. |
| `Attribution.ThreeAccountsAgree` | crates/memmux-metrics/src/attribution.rs:157-194 | For sampled task roots `owned_bytes` equals `provider_bytes`, and both equal the sum of the subtree accounts when no root is under another. |
| `CivilDate.OneDayLater` | crates/memmux-bench/src/report.rs:829-843 | From each day to the next the computed date makes exactly one calendar step (month lengths of section 5.7, leap rule of Appendix C of RFC 3339). |
| `CivilDate.CivilIsGregorian` | crates/memmux-bench/src/report.rs:829-843 | For every day number since the epoch the division chain gives the date reached from 1970-01-01 by stepping day by day. |
| `CivilDate.DaysLaterRoundTrip` | crates/memmux-bench/src/report.rs:821-823 | The date reached after n steps is valid, and counting its years, months and days gives n back. |
| `CivilDate.FormatRoundTrip` | crates/memmux-bench/src/report.rs:829-843 | The computed fields are in range and convert back to the same second count. |
| `CivilDate.PrintRoundTrip` | crates/memmux-bench/src/report.rs:824-845 | The text has the form `YYYY-MM-DD hh:mm:ssZ` with at least four digits for the year, and reads back to the second since the epoch in which the time falls, beyond the year 9999 too; a time before the epoch prints as the epoch. |
| `CivilDate.PrintSameIff` | crates/memmux-bench/src/report.rs:824-845 | Two times print alike if and only if they fall in the same second since the epoch, or both before its first second ends. |
| `CivilDate.FormatIncreases` | crates/memmux-bench/src/report.rs:824-845 | Later seconds never give the same or earlier fields. |
| `CivilDate.KnownDate` | crates/memmux-bench/src/report.rs:1342-1347 | 1700000000 seconds after the epoch reads as 2023-11-14 22:13:20, and the epoch as 1970-01-01 00:00:00. |
| `Fnv.StepInjectiveLow` | crates/memmux-lifecycle/src/checkpoint.rs:27-30 | Modulo every power of two from 2^8 to 2^64, one step of FNV-1a (section 2 of draft-eastlake-fnv) is injective in the state for a given byte and in the byte for a given state. |
| `Fnv.CommonEndLow` | crates/memmux-lifecycle/src/checkpoint.rs:25-32 | Modulo such a power, after a common end two digests are equal if and only if they were equal before it. |
| `Fnv.OneByteChangesLowBits` | crates/memmux-lifecycle/src/checkpoint.rs:25-32 | Byte strings that differ in exactly one byte have digests that differ already in their low 8 bits, and so modulo every such power. |
| `Fnv.StepInjective` | crates/memmux-lifecycle/src/checkpoint.rs:27-30 | One step that gives the same state came from the same state exactly if it took the same byte. |
| `Fnv.CommonEnd` | crates/memmux-lifecycle/src/checkpoint.rs:25-32 | After a common end two digests are equal if and only if they were equal before it. |
| `Fnv.OneByteChangesDigest` | crates/memmux-lifecycle/src/checkpoint.rs:25-32 | Byte strings that differ in exactly one byte have different digests. |
| `Fnv.HexInjective` | crates/memmux-lifecycle/src/checkpoint.rs:31 | The zero-padded 16-digit rendering is equal exactly for equal digests. |
| `Fnv.Fold` | crates/memmux-lifecycle/src/checkpoint.rs:26-30 | The loop computes the digest of all bytes; the slug hash runs the same loop. |
| `Fnv.ContentHash` | crates/memmux-lifecycle/src/checkpoint.rs:25-32 | Returns the 16-digit rendering of the digest. |
| `Checkpoint.CorruptionIsDetected` | crates/memmux-lifecycle/src/checkpoint.rs:117-165 | A new checkpoint verifies; with a body whose encoding differs in one byte, or any other integrity field, it does not. |
| `Checkpoint.VerifyIff` | crates/memmux-lifecycle/src/checkpoint.rs:145-165 | A changed body passes if and only if its encoding has the same 64-bit digest. |
| `Slug.Slugify` | crates/memmux-worktree/src/slug.rs:51-66 | Returns the maximal alphanumeric runs of the input in lower case joined by single dashes: no leading, trailing or doubled dash. |
| `Slug.SlugifyIsIdempotent` | crates/memmux-worktree/src/slug.rs:51-66 | Slugifying twice is slugifying once. |
| `Slug.SlugIsFixed` | crates/memmux-worktree/src/slug.rs:51-66 | Every string of slug shape is its own slug, so the slugs are exactly the fixed points. |
| `Slug.TruncatedIsSlug` | crates/memmux-worktree/src/slug.rs:68-77 | Cutting a slug gives a slug that is a prefix of it within the limit, not empty, and at most one character shorter than the limit. |
| `SlugText.SlugGrows` | crates/memmux-worktree/src/slug.rs:51-66 | The slug of a text and one more character: a letter or digit is added in small, behind a dash if it starts a word that is not the first; anything else adds nothing. With the empty slug of the empty text this fixes every slug. |
| `SlugText.SlugKeepsLetters` | crates/memmux-worktree/src/slug.rs:51-66 | Apart from its dashes a slug is exactly the letters and digits of the text, in small and in order. |
| `SlugText.SlugOfParts` | crates/memmux-worktree/src/slug.rs:51-66 | Any other character between two parts of a text becomes one dash between their slugs, or nothing when one of them is empty. |
| `Slug.Base36` | crates/memmux-worktree/src/slug.rs:94-106 | The digit loop prints the number, and reading the digits back gives it. |
| `Slug.ShortHash` | crates/memmux-worktree/src/slug.rs:80-92 | Padding and trimming leave the low seven base-36 digits of the digest. |
| `Slug.Generate` | crates/memmux-worktree/src/slug.rs:20-33 | Returns the base, a dash and the hash suffix of intent and seed; an intent without words becomes `task`. |
| `Slug.GeneratedIsSlug` | crates/memmux-worktree/src/slug.rs:20-33 | For every intent and seed: a slug of 9 to 32 characters ending in a dash and seven base-36 digits. |
| `SlugText.NameTells` | crates/memmux-worktree/src/slug.rs:20-33 | In front of the suffix stands the slug of the intent if it has at most 24 characters, else its first 24 (23 if a dash would be last), and `task` exactly when the intent has no letter or digit; the suffix reads in base 36 as the digest of intent, a zero character and seed modulo 36^7. |
| `Radix.ReadGrows` | crates/memmux-worktree/src/slug.rs:94-106 | Reading is positional: each further digit, 0 to 9 or a to z, adds its value to the rest times the base. |
| `Slug.SlugBranchIsValid` | crates/memmux-worktree/src/slug.rs:41-48 | The branch of any non-empty slug passes `is_valid_ref`. |
| `Slug.GeneratedBranchIsValid` | crates/memmux-worktree/src/slug.rs:108-124 | So does the branch of every generated slug. |
| `GitRef.ValidRefIff` | crates/memmux-worktree/src/slug.rs:108-124 | A name passes `is_valid_ref` if and only if it is not empty, neither begins nor ends with a dot or slash, does not end in ".lock", and has no banned character and no two neighbours that clash: two dots, two slashes, a dot next to a slash, or "@{". |
| `Slug.NamesDifferIff` | crates/memmux-worktree/src/slug.rs:20-33 | Names of one intent differ for two seeds if and only if the digests differ in their low seven base-36 digits: padding, trimming and the base lose nothing else. |
| `Slug.OneByteKeepsNamesApart` | crates/memmux-worktree/src/slug.rs:20-33 | Whenever the bytes of intent and seed differ in one place only, the names differ. |
| `Slug.OneCharacterKeepsNamesApart` | crates/memmux-worktree/src/slug.rs:1-5 | Seeds that differ in one ASCII character, such as task ids that differ in one digit, never give one intent the same name: where the promise of distinct names does hold. |
| `Slug.NamesCollide` | crates/memmux-worktree/src/slug.rs:3-5 | Two concrete seeds give one intent the same name, against the promise of distinct names. |
| `Ewma.RecurrenceIsClosedForm` | crates/memmux-sched/src/classes.rs:97-103 | One update turns the closed forms of the observations (exponentially weighted mean; weighted mean of squares less the squared mean) into those of one observation more. |
| `Ewma.WeightsSumToOne` | crates/memmux-sched/src/classes.rs:97-103 | The weights of the closed form are a distribution. |
| `Ewma.MeanBounds` | crates/memmux-sched/src/classes.rs:97-101 | The mean lies between the smallest and the largest observation. |
| `Ewma.VarianceBounds` | crates/memmux-sched/src/classes.rs:97-103 | 0 <= var <= (max - mean) * (mean - min). |
| `Ewma.PredictionIsConservative` | crates/memmux-sched/src/classes.rs:117-129 | The prediction is never below the smallest observation, covers the mean up to truncation and the top of `u64`, and never falls when `z` grows. |
| `Ewma.RootIsUnique` | crates/memmux-sched/src/classes.rs:123 | The nonnegative square root of the variance is unique, so the prediction is determined. |
| `Ewma.BoundWithoutRoot` | crates/memmux-sched/src/classes.rs:121-124 | A size is within the bound `mean + z * std` if and only if it is at most the mean or its squared distance above it is at most `z` squared times the variance: the bound without any root. |
| `Ewma.PredictionWithoutWidening` | crates/memmux-sched/src/classes.rs:117-129 | With `z` not positive the prediction lies between the smallest and largest observation. |
| `Ewma.WithinPredictionIff` | crates/memmux-sched/src/classes.rs:117-129 | A size is within the prediction if and only if no observation is smaller, or it is within `u64` and at most the mean, or its squared distance above the mean is at most `z` squared times the variance: no root, truncation or saturation is left. |
| `Ewma.WithinMeanIff` | crates/memmux-sched/src/classes.rs:113-115 | A positive size is within the reported mean if and only if it is at most the mean and within `u64`. |
| `Ewma.EwmaPredictor.constructor` | crates/memmux-sched/src/classes.rs:74-82 | Starts without observations; `alpha` is clamped to 0.01..1. |
| `Ewma.EwmaPredictor.Observe` | crates/memmux-sched/src/classes.rs:90-110 | Keeps mean, variance, floor and count equal to the closed forms of everything observed. |
| `Ewma.EwmaPredictor.MeanPeakBytes` | crates/memmux-sched/src/classes.rs:113-115 | The truncated closed-form mean, present exactly when something was observed. |
| `Ewma.EwmaPredictor.PredictedPeakBytes` | crates/memmux-sched/src/classes.rs:121-129 | The prediction as a function of all observations, present exactly when there is one. |
| `Admission.RankRanked` | crates/memmux-sched/src/score.rs:127-132 | Sorting candidates with distinct ids puts each strictly ahead of all later ones: higher score first, then smaller id. |
| `Admission.RankIsPermutation` | crates/memmux-sched/src/score.rs:127-132 | Sorting neither adds nor loses candidates. |
| `Admission.RankingIsUnique` | crates/memmux-sched/src/score.rs:127-132 | There is only one ranking of a given collection of candidates. |
| `Admission.PlanAdmission` | crates/memmux-sched/src/score.rs:126-150 | The greedy loop computes the plan the theorems below are about. |
| `Admission.PlanIgnoresOrder` | crates/memmux-sched/src/score.rs:121-132 | With distinct ids the plan is the same for every permutation of the candidates. |
| `Admission.FillPartitions` | crates/memmux-sched/src/score.rs:134-149 | Admitted and deferred ids are together exactly the candidates, and admitted peaks plus the remainder are the available bytes. |
| `Admission.AdmittedIff` | crates/memmux-sched/src/score.rs:136-148 | A candidate is admitted if and only if its peak fits in what the admitted ones ranked before it leave; a deferral reports what was needed and what was free. |
| `Admission.PlanIsFullAndFeasible` | crates/memmux-sched/src/score.rs:126-150 | Each candidate is admitted or deferred and not both, the admitted peaks fit, and adding any deferred candidate to them would overflow. |
| `Admission.PlanIsGreatest` | crates/memmux-sched/src/score.rs:121-150 | Among all choices of candidates whose peaks fit, the plan is the greatest in rank order: any other fitting choice first parts from it by leaving out a candidate the plan admits. |
| `Admission.ChosenAreAdmitted` | crates/memmux-sched/src/score.rs:136-149 | That choice is the admitted list. |
| `Admission.LowerRanksDoNotMatter` | crates/memmux-sched/src/score.rs:121-125 | Two candidate lists that agree on a candidate and those ranked above it decide it alike. |
| `Lexicographic.BeforeIff` | crates/memmux-sched/src/score.rs:131 | The order of ids: a string comes before another if and only if it is a proper prefix of it, or has the smaller character where they first differ. |
| `AdmissionOrder.AdmittedIffFits` | crates/memmux-sched/src/score.rs:121-150 | Without ranks: a candidate is admitted if and only if its peak fits in what the admitted candidates with a higher score, or the same score and a smaller id, leave of the available bytes; else it is deferred, with its need and that rest in whole mebibytes in the reason. |
| `AdmissionOrder.BetterAreAdmitted` | crates/memmux-sched/src/score.rs:121-150 | If a candidate is admitted, so is every one that asks for no more and has a higher score, or the same score and a smaller id. |
| `AdmissionOrder.PlanIsInOrder` | crates/memmux-sched/src/score.rs:127-149 | Admitted ids, and deferred ids, come in order of falling score, and at equal scores of growing id. |
| `PaneLayout.SplitLeaves` | crates/memmux/src/app.rs:195-214 | The split succeeds exactly when the target is open, inserts the new leaf right after its first occurrence, keeps ratios in range, and otherwise changes nothing. |
| `PaneLayout.WithoutLeaves` | crates/memmux/src/app.rs:216-242 | Removing filters the leaves and leaves no tree exactly when nothing else was in it. |
| `PaneLayout.SplitThenWithout` | crates/memmux/src/app.rs:195-242 | Splitting at an open leaf with a new id and removing that id gives back the identical tree. |
| `PaneLayout.ResizeMovesDeepest` | crates/memmux/src/app.rs:275-302 | A resize changes exactly the ratio of the deepest split along its axis on the path to the focused leaf, by the clamped delta; without such a split it changes nothing and says so. |
| `PaneLayout.ResizeKeepsLeaves` | crates/memmux/src/app.rs:275-302 | A resize keeps the leaves and the ratio range, and does nothing for a leaf that is not open. |
| `PaneGeometry.LeafRectsAreLeaves` | crates/memmux/src/app.rs:244-273 | One rectangle per leaf, in the order of the leaves. |
| `PaneTiling.OnePane` | crates/memmux/src/app.rs:244-273 | If dividing a rectangle gives each of its cells to one part, then in every tree each cell of the grid is in exactly one pane, and no other cell in any. |
| `PaneTiling.ClickPicksThePane` | crates/memmux/src/app.rs:1063-1075 | A click on a cell of the grid focuses the one pane that has the cell; a click elsewhere changes nothing. |
| `PaneTiling.ProportionKeepsCells` | crates/memmux/src/app.rs:262-270 | Dividing in proportion is such a way of dividing. |
| `PaneTiling.ProportionKeepsCorner` | crates/memmux/src/app.rs:262-270 | And the first part keeps the corner, as the theorems on the first pane ask. |
| `PaneFocus.ProportionKeepsInside` | crates/memmux/src/app.rs:262-270 | And both parts lie inside, as the theorem on the nearest pane asks. |
| `PaneChanges.SplitDividesTarget` | crates/memmux/src/app.rs:195-214 | A split divides the rectangle of its target in equal shares along the given direction, the new pane second, and moves no other pane. |
| `PaneChanges.CloseGivesRoom` | crates/memmux/src/app.rs:216-242 | Removing one of several panes gives the rectangle of its split to the sibling and moves no other pane. |
| `PaneGeometry.FindNearest` | crates/memmux/src/app.rs:977-999 | The loop finds the first of the panes in the direction with the least `i32` distance, or none when none lies there. |
| `PaneGeometry.NearestIsUnique` | crates/memmux/src/app.rs:958-999 | There is at most one such pane. |
| `PaneFocus.FocusIsNearestIff` | crates/memmux/src/app.rs:958-1003 | In every sound state, every direction and every way of dividing rectangles inside themselves, a focus move goes to a pane at the least true distance (when any pane lies in the direction), if and only if the squared width plus the squared height of the grid is below 2^31. |
| `PaneFocus.FocusMovesIff` | crates/memmux/src/app.rs:960-1003 | In every sound state and however rectangles are divided: focus moves if and only if the centre of some pane is strictly left of, right of, above or below the centre of the focused one, as the direction says; then it moves to such a pane, and nothing else changes. |
| `PaneFocus.MoveToOther` | crates/memmux/src/app.rs:960-1003 | Of two panes, focus moves to the other one if and only if that one is on the side of the direction. |
| `PaneFocus.MoveBack` | crates/memmux/src/app.rs:960-1003 | Between two panes, a move in the opposite direction undoes a move. |
| `PaneFocus.HalvesMove` | crates/memmux/src/app.rs:960-1003 | Between two equal halves, for every grid and all four directions: focus crosses the divide if the grid is at least two cells long that way, and moves nowhere else. |
| `PaneFocus.WideGridSkips` | crates/memmux/src/app.rs:958-1003 | A concrete grid of 65535 by 48 cells, three panes side by side in proportion: moving right from the left pane skips the middle one. |
| `PaneModel.NextIsSound` | crates/memmux/src/app.rs:743-1075 | Every pane operation, under any data, keeps: distinct leaves in every tree, ratios within 10..=90, a focused pane exactly when the active group is open and then in its tree, grid focus only while some pane is open, zoom only with a focused pane. |
| `PaneModel.NextOpenIn` | crates/memmux/src/app.rs:838-1075 | Which agent is open in which group after any operation: opening adds one pane, closing takes at most that one, nothing else changes the panes. |
| `PaneModel.NextKeeps` | crates/memmux/src/app.rs:743-1075 | Every pane operation keeps the full invariant: all that, and every leaf in the group of its `ws_key`. |
| `PaneModel.RunIsGood` | crates/memmux/src/app.rs:838-1075 | Over every run of pane operations, with task and workspace data fixed, the full invariant holds and no agent is open in two groups. |
| `PaneModel.RefreshedRunIsSound` | crates/memmux/src/app.rs:825-1075 | Over every run with data refreshes at any point, everything but the grouping still holds. |
| `PaneModel.OpenAdds` | crates/memmux/src/app.rs:861-889 | Opening adds exactly the one agent to what is open, shows its group with the focus and the keyboard on it and without zoom, and leaves every other group and the selected row alone. |
| `PaneChanges.OpenDividesFocused` | crates/memmux/src/app.rs:865-889 | In an open group a new agent takes the second half of the focused pane, or of the last pane when the focus is elsewhere, in the chosen direction; no other pane moves, and the new one has the keyboard, without zoom. |
| `PaneChanges.OpenFirstFills` | crates/memmux/src/app.rs:865-889 | The first agent of a group fills the grid. |
| `PaneChanges.ChosenDirection` | crates/memmux/src/app.rs:865-889 | The direction chosen last is the one in which the next new pane divides the focused one. |
| `PaneModel.CloseRemoves` | crates/memmux/src/app.rs:891-901 | In any state, closing takes exactly the pane the agent has in the group its key names now; every other pane stays. |
| `PaneModel.CloseKeepsFocus` | crates/memmux/src/app.rs:902-926 | Closing an agent that is not focused leaves focus, active group and zoom as they are. |
| `PaneChanges.CloseRefocuses` | crates/memmux/src/app.rs:902-926 | When the focused pane is closed, focus goes to the pane in the corner of its group; if the group is gone, to the corner pane of the first other group in key order; if none is left, back to the sidebar. |
| `PaneModel.OpenThenClose` | crates/memmux/src/app.rs:865-927 | Opening a new agent and closing it again leaves every group as it was. |
| `PaneChanges.ResizeStepsNearest` | crates/memmux/src/app.rs:275-302 | A resize takes one step at the nearest split around the focused pane that lies along the direction: five points more to the first child for right and down, five less for left and up, within 10 to 90; nothing else changes. |
| `PaneChanges.SelectShows` | crates/memmux/src/app.rs:734-753 | Selecting the row of an open group shows it with the focus in its corner pane, without zoom; of a closed group, nothing is shown. |
| `PaneChanges.ZoomIff` | crates/memmux/src/app.rs:935-939 | Zoom is a toggle that works exactly when a pane has the focus. |
| `PaneChanges.RowsAre` | crates/memmux/src/app.rs:600-617 | Rows are the workspaces, and one more exactly when some task belongs to none of them. |
| `PaneChanges.GroupIs` | crates/memmux/src/app.rs:838-855 | The group of an agent is the repository of the first task of that id if it is a registered workspace, else the reserved group. |
| `PaneChanges.GroupHasRowIff` | crates/memmux/src/app.rs:838-855 | The group of an agent has a row if and only if the agent is among the tasks, or there is a row for agents without a workspace (or a workspace with the reserved key). |
| `PaneChanges.RefreshKeepsRow` | crates/memmux/src/app.rs:825-830 | After fresh data the selected row stays if it still exists; else the last row is selected, if there is one. |
| `PaneModel.NewDataKeepsIff` | crates/memmux/src/app.rs:825-836 | New task data keeps the grouping if and only if no open agent changes its group. |
| `PaneModel.OpenOnlyFocusesIff` | crates/memmux/src/app.rs:861-889 | In any state, opening an agent leaves all panes alone if and only if it is open in the group its key names now. |
| `PaneModel.ReopenOnlyFocusesIff` | crates/memmux/src/app.rs:861-889 | For an agent open in its own group: opening it again leaves all panes alone, as documented, if and only if its group has not changed since it was opened. |
| `PaneModel.ReopenedTwiceIff` | crates/memmux/src/app.rs:861-889 | Afterwards it is open in exactly its old and its new group: once when they are the same, else twice. |
| `PaneModel.CloseClosesIff` | crates/memmux/src/app.rs:891-901 | In any state, closing an agent closes it if and only if it is open in no group other than the one its key names now. |
| `PaneModel.CloseAfterRefreshIff` | crates/memmux/src/app.rs:891-901 | For an agent open in its own group: closing it closes it if and only if its group has not changed since it was opened. |
| `PaneModel.RegisteredWhileOpen` | crates/memmux/src/app.rs:843-889 | A concrete change of data after which reopening an agent opens it in two groups. |
| `PaneModel.TerminatedButOpen` | crates/memmux/src/main.rs:435-456 | A concrete run (open an agent, register its repository, terminate it) after which its pane is still open and focused. |
| `PaneModel.Model.constructor` | crates/memmux/src/app.rs:559-590 | A model starts without panes, in the sidebar. |
| `PaneModel.Model.SetData` | crates/memmux/src/app.rs:825-830 | New data replaces the old, and the selected workspace row is clamped to the rows there are. |
| `PaneModel.Model.OpenPane` | crates/memmux/src/app.rs:865-889 | The in-place operation leaves the state the run theorems are about. |
| `PaneModel.Model.ClosePane` | crates/memmux/src/app.rs:894-927 | Likewise, the fallback group being the first in key order. |
| `PaneModel.Model.SelectRow` | crates/memmux/src/app.rs:734-753 | Likewise, for a selected workspace row. |
| `PaneModel.Model.ToggleZoom` | crates/memmux/src/app.rs:935-939 | Likewise; without a focused pane nothing changes. |
| `PaneModel.Model.ResizeFocused` | crates/memmux/src/app.rs:943-956 | Likewise; without a focused pane or an open active group nothing changes. |
| `PaneModel.Model.FocusDir` | crates/memmux/src/app.rs:960-1003 | Likewise: focus moves to the first of the nearest panes in the direction, or stays. |
| `PaneModel.Model.FocusPaneAt` | crates/memmux/src/app.rs:1063-1075 | Likewise; it reports a hit exactly when some pane of the active group covers the cell. |
| `Envelope.WithinReserveIff` | crates/memmux-sched/src/envelope.rs:39-79 | For every host size and amount: the amount is within a reserve if and only if it is within its floor (1.5, 3, 1 and 2 GiB), or 100 times it is at most the percentage (8, 20, 5 and 12) times the host and within `u64`. |
| `Envelope.PositiveIff` | crates/memmux-sched/src/envelope.rs:37-79 | For every host size the default budget is positive if and only if the host has more than 7.5 GiB. |
| `Envelope.BudgetShareIff` | crates/memmux-sched/src/envelope.rs:39-79 | 100 times the budget is at most 55 times the host size plus 396 if and only if the host has at most 922337203685477593 bytes; above that the saturating product caps the largest reserve. |
| `Envelope.BudgetGrows` | crates/memmux-sched/src/envelope.rs:39-79 | For all host sizes, a larger host never loses more than 3 bytes, and a positive budget strictly grows once the host is at least 5 bytes larger. |
| `Envelope.GrowthIsTight` | crates/memmux-sched/src/envelope.rs:39-79 | Concrete hosts show that neither the 3 nor the 5 can be smaller. |
| `Lifecycle.RunIsChained` | crates/memmux-core/src/runtime.rs:59-80 | After any sequence of attempts the history is a chain of legal moves from `Created` to the current state, with the matching time stamps. |
| `Lifecycle.HibernatedAfterCheckpoint` | crates/memmux-core/src/state.rs:76-105 | Every visit to `Hibernated` directly follows `Checkpointing`. |
| `Lifecycle.BecomesResidentIff` | crates/memmux-core/src/state.rs:54-105 | A legal move makes a task resident if and only if it is one of: admitting to starting, hibernated to resuming, blocked to active. |
| `Lifecycle.EnteredFromIff` | crates/memmux-core/src/state.rs:73-105 | The table read by columns: from which states each state may be entered; `Terminating` from all but the last two. |
| `Lifecycle.ReachableIff` | crates/memmux-core/src/state.rs:73-105 | A state can be reached by some legal moves if and only if it is not `Created` and the task is not being torn down, or only `Terminated` remains to be reached: every live state can come to every other and back to itself. |
| `Lifecycle.FollowSucceeds` | crates/memmux-core/src/runtime.rs:59-80 | Attempts along legal moves all succeed, and each is recorded with its reason and time. |
| `Lifecycle.TerminatingIsFinal` | crates/memmux-core/src/state.rs:54-105 | After `Terminating` a task is never resident again and makes at most one more move, to `Terminated`. |
| `Lifecycle.TwoMovesTerminate` | crates/memmux-core/src/state.rs:73-105 | From every state two attempts reach `Terminated`. |
| `Lifecycle.Task.constructor` | crates/memmux-core/src/runtime.rs:44-52 | A new task is `Created` with an empty history. |
| `Lifecycle.Task.MoveTo` | crates/memmux-core/src/runtime.rs:63-80 | A legal move is recorded and made; an illegal one is reported and changes nothing; the chain is kept. |

## Left out

- I/O: the daemon, PTY sessions, sockets, SQLite, git, signals and sleeps, self-update, and the
  JSON and zstd layers of the chunk store. A chunk file is the list of lines it holds. A write that
  fails in the middle of an append, and files left by an earlier run, are not modelled.
- Counters of lines, chunks and samples are unbounded; wrap-around of these `u64` counters is not
  modelled. Byte totals in `Attribution` are unbounded too. The byte counter of `Governor` and the
  distances of `PaneGeometry` wrap as in a release build, where a debug build would stop.
- Floating point: `Ewma` and `Admission` use reals, so rounding, NaN and infinities are absent; a
  score that is NaN would make the sort order partial.
- Ewma.EwmaPredictor.PredictedPeakBytes: the square root is the nonnegative number whose square is the
  variance, passed in; that there is only one is `RootIsUnique`, that there is one is taken for granted.
- UTF-8: text in the capture pipeline is bytes. In `Slug` strings are sequences of characters, their
  encoding is a parameter, of which two results ask that ASCII text encodes as itself and that
  strings encode character by character. A slug is ASCII, so the boundary loop of
  `truncate_on_boundary` never steps and is not modelled.
- Checkpoint.CorruptionIsDetected: the JSON encoding of the body is a parameter, any function to bytes.
- Sorting and de-duplication of vectors (`sort_by`, `sort_unstable`, `dedup`, `retain`) are insertion
  functions on sequences; iteration over hash maps is in an arbitrary order.
- Fnv.Fold: the digest loop occurs twice in the program, once per file, and once here.
- Attribution.Attribute: asks that every sample is filed under its own pid, which every tree built from samples satisfies.
- The constant `unknown_proc_count` of `classify`; `attributed_fraction`, `escaped_pids`,
  `unknown_pids` and the process-sample fields that no account reads.
- Pane trees are values: the program owns each tree outright, so nothing can alias it.
- The terminal library's division of a rectangle in two is a parameter; each theorem says what it asks of
  it: that both parts lie inside, that each cell goes to one part, or that the first keeps the corner. Rendering, mouse regions, key
  mapping, cached screens, the agent list and its selection, forms and dialogs of `app.rs` are absent.
- Explicit reserves, headroom and utilisation of `envelope.rs`: single expressions.
- The scoring expression, the class reservation table, `classify_substate` and ages: single expressions
  or tables without a property of their own.
