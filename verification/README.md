# PrivaHub: a verified model of its audit chain, graph rendering, sessions and job synchronisation

This project models four parts of PrivaHub in Dafny and proves what they guarantee.

**The audit chain** (`internal/audit`). Appenders, archivers and tail initialisers share three tables and an archive
directory. `AuditSteps` holds what each statement reads and each transaction commits, `AuditRuns` interleaves any
number of calls statement by statement (with retries, crashes and an auxiliary history), and `AuditStore.Store` is the
same store as an object with loops. `Verify` computes the verifier's report by its paged walk; `VerifyMeaning` says
what a valid report means and `VerifyReport` what an invalid one names; `TamperEvidence` and `ArchiveEvidence` say what
a valid report proves about a rewritten database; `NoFalseAlarm` says exactly when an untampered store is reported valid while
others work on it, and `FalseAlarm` gives a run on which it is not; `AppendRaces` says when an append gives up.
`EventRows` makes rows of events, `ExtraReading` reads their extra column back, and `ArchiveFile`, `ArchiveFormat`, `Json`,
`JsonCuts`, `Utf8`, `Utf8Scalars`, `LineLengths` and `ArchiveRoundTrip` go down to the bytes of the archive files. The digest is an arbitrary function: nothing is assumed of it except, where a
theorem says so, that the rows at hand do not collide (and that digests are text of 64 bytes).

**Event delivery** (`Spool`, `SpoolTears`, `Delivery`, `DeliveryRuns`, `DeliveryWriter`, `DeliveryReplay`). Producers, the writer, callers of
Flush, the closing caller and the end of the process interleave over the bounded queue, the spool files, torn writes
included, and the database of the audit chain.

**Graph rendering** (`TopNodes`, `Graph`, `Render`, `RenderShape`, `RenderContent`, `RenderFlow`, `Fold`,
`FoldRendered`). The stages that turn selected graph components into submitted tasks, as an object that rewrites its list
of tasks, and what survives: what the tasks run, the wiring, the identities, closedness, acyclicity, and the way back from
Kuscia's statuses.

**Sessions, throttling, job status** (`Sessions`, `SessionService`, `Throttle`, `ThrottleLocks`, `TaskLogs`, `JobSync`,
`JobReports`, `JobStore`). One-time refresh tokens under races, the lockout window, and the status machine that is fed
redundantly by watch and poll.

Where a class and a specification function stand side by side, the class's methods are proved equal to the function and
the theorems are about the function.

## What the proofs found

Where code and documentation disagree the model follows the code. Each of these is a lemma.

- The archive that `archiveOne` writes of recorded events fails `VerifyArchiveFile` exactly when some text column is not
  valid UTF-8, because JSON replaces the offending bytes (`RecordedFilePasses`, `InvalidTextBreaksArchive`). The limit of
  the scanner, which would be the other reason (`WrittenFilePasses`), is out of reach of what the columns hold.
- `Verify` reports an untampered store as broken when an archive commits between its segment read and its row reads, or
  when it is given an anchor newer than its tail read (`HonestVerdict`, `VerdictOnRun`; a run of ten statements in
  `ArchiveBetweenReads`). Appends alone never disturb it (`VerifyWhileAppending`).
- Anchors strictly inside an archived segment are never compared (`InnerAnchorsAreNotCompared`); with the files required,
  one anchor anywhere else fixes the whole history before it (`AnchorFixesEverything`).
- `Close` promises that events racing with it go to the spool. An event is stranded exactly when its producer was between
  its check of `closed` and its send when `Close` drained for the last time (`StrandedIff`; a run in
  `EventCanBeStranded`).
- A spool rotation destroys a rotated file exactly when it carries that file's timestamp and other data
  (`RotationKeepsFilesIff`; a run in `CollisionLosesFile`).
- An event that the spool reports as written can be read back exactly when the file ended with a complete line, after
  any history of whole and torn writes; otherwise it is lost uncounted (`NextIsReadIff`, `AcceptedEventIff`; a run in
  `TearLosesNext`), and so is the torn event, even if only its line feed was missing (`TornAppendIff`).
- A modification component with more than two outputs loses the others: their readers wait for data that nobody produces
  (`FlowIff`, `ThirdOutputIsLost`).
- A job id or component id containing `--` is never given a status (`UncleanIsNeverReported`), and the extra task of an id
  that ends in `-` is folded into a different id (`TrailingDashMisfolds`); in all other cases the reports of a rendered
  job fold back to its tasks (`FoldUndoesRender`).
- An overfull throttle table drops every second entry of a walk in the runtime's order, not the oldest-expiring half: as
  soon as the live entries fill the table, any of them can be dropped (`LiveEntryMayBeDropped`).
- "Consecutive" not-found polls are counted across polls that failed and across DELETED events (`MissesAreCounted`).

## Model

| member | source | states |
|---|---|---|
| Canonical.CanonicalJoin | internal/audit/hash.go:61-71 | the builder loop computes the concatenated length-prefixed fields |
| Canonical.JoinInjective | internal/audit/hash.go:61-71 | field lists of any length have equal encodings only if they are equal |
| Utf8.Truncate | internal/audit/hash.go:49-59 | an over-long string becomes its longest valid prefix of at most n bytes, losing at most three bytes of valid text; a short one stays |
| Utf8Scalars.EncodedIsValid | internal/audit/hash.go:54 | what encodes scalar values is valid UTF-8 |
| Utf8Scalars.ValidIsEncoded | internal/audit/hash.go:54 | and every valid string encodes some |
| EventRows.RenderExtra | internal/audit/hash.go:73-96 | extra is the same bytes for the same map, whatever the order in which the runtime visits it |
| EventRows.ListingIsUnique | internal/audit/hash.go:78-82 | a map has one ascending listing of its keys |
| EventRows.ExtraIsText | internal/audit/hash.go:73-96 | extra is valid UTF-8 and bounded, whatever the event carries |
| EventRows.LessMeaning | internal/audit/hash.go:82 | the byte order of the keys: a prefix comes first, else the first differing byte decides |
| EventRows.RecordedColumns | internal/audit/hash.go:138-157 | every property stands in its own column, whole when it fits, else as its longest valid prefix that does; the time as it is |
| ExtraReading.ExtraReadsBack | internal/audit/hash.go:73-96 | extra reads back as one member for each of the first 32 keys as they are cut, in byte order, with the cut value of the last key so cut |
| ExtraReading.SmallExtraReadsBack | internal/audit/hash.go:73-96 | an extra of valid text within the limits reads back entry by entry |
| EventRows.MakeRow | internal/audit/hash.go:138-157 | the row of an event, with each property in its own column |
| LineLengths.RecordedIsBounded | internal/audit/hash.go:34-48 | every recorded event is within the columns |
| LineLengths.ReplayedIsBounded | internal/audit/spool.go:139-148 | and so is, up to the replaced bytes, what the spool gives back of it |
| LineLengths.RowLineLength | internal/audit/retention.go:213-214 | the line of such a row stays below one MiB, a quarter of the smaller scanner limit |
| Chain.RowPreimageInjective | internal/audit/hash.go:103-117 | two rows have the same pre-image exactly when they agree in everything but the stored hash |
| Chain.SegmentPreimageInjective | internal/audit/hash.go:119-132 | the same for segment records |
| Chain.RowPreimageSays | internal/audit/hash.go:103-117 | a reader of a row's pre-image finds the label, then each hashed column in this order, and nothing else |
| Chain.SegmentPreimageSays | internal/audit/hash.go:119-132 | the same for segment records |
| Chain.RowSegmentPreimagesDiffer | internal/audit/hash.go:103-132 | a row and a segment record never share a pre-image |
| Chain.ExtendLinked | internal/audit/store.go:170-184 | chained contents are numbered consecutively, linked to the tail and to each other, and carry their contents in order |
| Chain.ExtendConcat | internal/audit/store.go:170-184 | chaining a concatenation is chaining one part behind the other |
| Chain.LinkedIsExtend | internal/audit/store.go:170-184 | linked rows are exactly what their contents chain to |
| FirstOccurrences.FreshPositions | internal/audit/store.go:166-176 | the deduplication keeps, in order and once each, exactly the first position of every new key |
| FirstOccurrences.FreshKeys | internal/audit/store.go:166-176 | the keys kept are the new ones, pairwise distinct |
| AuditSteps.ReadAppendOk | internal/audit/store.go:154-184 | what an append has prepared is linked behind the tail it read and is the first occurrences of the unknown event ids |
| AuditSteps.CommitAppendIff | internal/audit/store.go:188-203 | an append commits exactly when nobody has appended since its read |
| AuditSteps.CommitAppendKeeps | internal/audit/store.go:188-203 | a committed append extends the history and keeps the whole invariant |
| AuditSteps.DeriveTailOk | internal/audit/store.go:46-72 | the tail derived from last row, last segment or genesis is the end of the history |
| AuditSteps.StartAfterOk | internal/audit/retention.go:78-85 | the next segment starts at the boundary of the archived range |
| AuditSteps.FirstKeepMeaning | internal/audit/retention.go:92-100 | the kept number is that of the first row still within the window |
| AuditSteps.CheckedRowsAreHistory | internal/audit/retention.go:107-122 | rows that pass the check are the history's own, whenever they were read |
| AuditSteps.CommitArchiveIff | internal/audit/retention.go:147-163 | an archiver commits exactly when its start is still the boundary; a stale one would delete fewer rows than it wrote |
| AuditSteps.CommitArchiveKeeps | internal/audit/retention.go:147-163 | a committed archive moves the boundary to its last row and keeps the whole invariant |
| AuditRuns.StepInv | internal/audit/store.go:101-204 | every statement of every racing call keeps the invariant; history and segments only grow |
| AuditRuns.RunInv | internal/audit/retention.go:77-165 | so does every run: segments contiguous from genesis, live rows behind them linked up to the tail, together the history of all commits |
| AuditRuns.PlannedBytes | internal/audit/retention.go:124-139 | racing archivers of one range write the same bytes under the same name |
| AuditRuns.WriteKeepsRanges | internal/audit/retention.go:136-139 | writing an archive never changes the file of another range |
| AppendRaces.GivesUpOnlyBehindTen | internal/audit/store.go:101-120 | on every run an append gives up only when at least ten other appends have committed since it began |
| AuditBatches.AppendAloneMeaning | internal/audit/store.go:143-204 | an undisturbed append adds the chain over the first occurrences of the ids that are not live, counts them, and moves the tail |
| AuditBatches.BatchingIsIrrelevant | internal/audit/store.go:94-120 | any sequence of appends gives the rows, hashes, tail and summed count of one append of the concatenation |
| AuditBatches.ReplayIsIdempotent | internal/audit/service.go:286-297 | replaying events that are live inserts none and changes nothing |
| AuditBatches.RunIsFirstOccurrences | internal/audit/store.go:94-120 | in every run without archiving the table is the chain over the first occurrences of the committed events, however batched, raced and retried |
| AuditStore.Store.EnsureTail | internal/audit/store.go:46-72 | creates the derived tail row if there is none and changes nothing else |
| AuditStore.Store.AppendOnce | internal/audit/store.go:143-204 | the loop over the batch computes one whole append, or fails and leaves the tables as they were |
| AuditStore.Store.Append | internal/audit/store.go:101-120 | at most ten attempts; alone, their outcome is that of one |
| AuditStore.CheckRun | internal/audit/retention.go:111-122 | the loop accepts exactly the linked and complete runs |
| AuditStore.Store.ArchiveOneSegment | internal/audit/retention.go:77-165 | picks, checks, writes and commits one segment, with its four outcomes |
| AuditStore.Store.ArchiveExpired | internal/audit/retention.go:51-75 | does nothing without retention, fails without directory, otherwise archives exactly the maximal expired prefix of a consistent store and returns its size |
| AuditStore.ArchiveOneMeaning | internal/audit/retention.go:77-165 | one segment takes as much of the expired prefix as 100000 rows allow, and carries the time of its archiving |
| AuditStore.ArchiveOneOutcome | internal/audit/retention.go:77-165 | how archiving one segment of any store ends: nothing to do, a run that is broken or incomplete is refused with store and files untouched, a commit that fails leaves only the file behind |
| AuditStore.ArchiveOneWrites | internal/audit/retention.go:124-139 | its rows go into one file of their numbers; no other file changes |
| AuditStore.ArchiveAllMeaning | internal/audit/retention.go:66-74 | the segments added are full except possibly the last |
| Verify.Verify | internal/audit/verify.go:77-203 | the paged walk reports what the unpaged one does, for every batch size, while the range it walks is stable |
| Verify.WalkPages | internal/audit/verify.go:158-202 | keyset paging visits each row of the range once, in order, and ends |
| Verify.RangeBehindCursor | internal/audit/verify.go:161-162 | behind a page's cursor come exactly the rows it did not show |
| VerifyMeaning.SortAnchorsMeaning | internal/audit/verify.go:135-136 | the anchors are walked in ascending order, each as often as supplied |
| VerifyMeaning.ValidIff | internal/audit/verify.go:77-203 | valid exactly when segments, anchors, rows and tail agree, with the counters this implies |
| VerifyMeaning.FirstBrokenRow | internal/audit/verify.go:168-193 | an invalid row walk names the first row that breaks, and how, and has counted the rows before it |
| VerifyReport.FirstBrokenSegment | internal/audit/verify.go:102-131 | the report names the first segment that does not verify at its first number, as a broken archive when only its file fails |
| VerifyReport.FirstBadAnchor | internal/audit/verify.go:134-156 | else the lowest anchor that is beyond the tail, as a truncation, or that disagrees with a boundary |
| VerifyReport.FirstBrokenLiveRow | internal/audit/verify.go:168-193 | else the first live row that does not continue the chain: a gap at the missing number, else a wrong link, hash or anchor; the rows before it have been counted |
| VerifyReport.TailBreak | internal/audit/verify.go:199-201 | else a tail that is not the end of the rows, behind the last of them, with all of them counted |
| VerifyReport.ValidCounters | internal/audit/verify.go:115-154 | a valid report has counted every good file, the others as missing, and each compared anchor once |
| TamperEvidence.EqualTailsEqualRows | internal/audit/hash.go:103-117 | linked runs that end in one hash agree row by row as far as both reach, barring collisions among them |
| TamperEvidence.TailDeterminesHistory | internal/audit/verify.go:158-201 | two stores that verify with the same tail agree on every row live in both, and on the boundary hash where one archived further |
| TamperEvidence.AnchorsCompared | internal/audit/verify.go:134-156 | in a valid report every anchor lies within the tail and agrees with the boundary or row at its number |
| TamperEvidence.AnchorFixesPast | internal/audit/verify.go:182-188 | an anchor that was a true tail fixes all live rows up to it |
| ArchiveEvidence.AnchorFixesEverything | internal/audit/verify.go:117-130 | with the files required it fixes the archived rows as well |
| ArchiveEvidence.InnerAnchorsAreNotCompared | internal/audit/verify.go:143-151 | inside a segment an anchor changes no verdict |
| TamperEvidence.RewriteVerifies | internal/audit/hash.go:21-26 | without anchors any contents can be made to verify |
| NoFalseAlarm.HonestVerdict | internal/audit/verify.go:77-203 | an untampered store is valid exactly when no archive intervened (or nothing was left to read), no anchor is newer than the tail, and checked files hold text in lines that fit |
| NoFalseAlarm.VerdictOnRun | internal/audit/verify.go:86-97 | the same on every run, stopped where tail, segments and rows are read |
| NoFalseAlarm.RangeStableOnRun | internal/audit/verify.go:158-198 | while no archive commits, appends between the pages leave the walked range stable |
| NoFalseAlarm.VerifyWhileAppending | internal/audit/verify.go:77-203 | the paged verifier itself, with appends committing between its page reads: for every batch size valid exactly when the segments do not reach beyond its tail, no anchor is newer and the files are readable; it then counted every row |
| FalseAlarm.UninterruptedArchive | internal/audit/retention.go:77-165 | the six statements of an archiver, run without interruption, do what archiving one segment does |
| FalseAlarm.ArchiveBetweenReads | internal/audit/verify.go:86-97 | a concrete run of one event, archived between the segment read and the row read, on which the untampered store is reported broken, while before and after it is valid |
| NoFalseAlarm.HonestSegmentsVerify | internal/audit/verify.go:103-131 | an untampered store's segments verify exactly when the rows in the checked files are text and their lines fit the scanner |
| NoFalseAlarm.RecordedVerdict | internal/audit/verify.go:77-203 | for recorded events the verdict on an untampered store is about timing, anchors and valid text alone |
| Json.UnquoteEscape | internal/audit/retention.go:130-134 | a string read back from JSON is the string written with invalid bytes replaced |
| Json.NoTypeMark | internal/audit/retention.go:220 | the bytes of a type member occur in no encoded row, whatever its contents |
| ArchiveFile.FileNameInjective | internal/audit/retention.go:47-49 | different ranges have different file names |
| ArchiveFile.DecodeEncodeRow | internal/audit/retention.go:230-233 | a row line reads back as the row with its text replaced where invalid |
| ArchiveFile.VerifyArchiveFile | internal/audit/retention.go:191-241 | the scanning loop computes the check's outcome for the base name of the recorded file: a missing file, a directory and a line beyond the scanner's limit included |
| ArchiveFormat.FileNameSays | internal/audit/retention.go:47-49 | a file's name carries its first and last number, in that order, each in twelve digits or as many as it has |
| ArchiveFormat.RowLineSays | internal/audit/retention.go:130-134 | a row's line is an object of its sixteen columns, each under its own name |
| ArchiveFormat.HeaderLineSays | internal/audit/retention.go:128-129 | the header says version, algorithm, range, link and count |
| ArchiveFormat.FooterLineSays | internal/audit/retention.go:135 | the footer says the last hash and the count |
| ArchiveFormat.ColumnMeaning | internal/audit/retention.go:230-232 | of a foreign line each column is the last member of its name, zero or empty without one; one of the wrong kind makes the line unreadable |
| ArchiveFormat.BaseMeaning | internal/audit/retention.go:194 | of a recorded path only the last element counts |
| ArchiveFormat.OutcomeMeaning | internal/audit/retention.go:193-241 | a file is reported by its first fault: place, digest, header, then the first line that is not the next row of the chain, wherever that is |
| ArchiveRoundTrip.RowIsNotFooter | internal/audit/retention.go:220 | no row content can pass for the footer |
| ArchiveRoundTrip.WrittenFilePasses | internal/audit/retention.go:124-145 | the file written for a linked segment passes exactly when its text columns are valid and its lines fit the scanner; invalid text makes it a broken chain |
| ArchiveRoundTrip.RecordedFilePasses | internal/audit/retention.go:124-145 | the archive of recorded events passes exactly when their text columns are valid, and else is a broken chain |
| ArchiveRoundTrip.InvalidTextBreaksArchive | internal/audit/retention.go:191-241 | a concrete recorded event whose untampered archive is reported as a broken chain |
| ArchiveRoundTrip.PassingFileIsLinked | internal/audit/retention.go:216-240 | a file that passes holds a linked run from the segment's first boundary to its last, whoever wrote it |
| Spool.ReadSpoolFile | internal/audit/spool.go:126-152 | the scanning loop yields the decodable events in order and counts the bad lines, up to a line that does not fit the scanner, which is an error |
| Spool.LinesAreCounted | internal/audit/spool.go:136-148 | every line is an event, counted as bad, or white space |
| Spool.AppendedIsRead | internal/audit/spool.go:59-96 | events appended to a closed file are read back behind what was there |
| Spool.TornWriteKeepsEarlier | internal/audit/spool.go:126-128 | a torn write leaves everything before it readable |
| SpoolTears.NextIsReadIff | internal/audit/spool.go:79-86 | after any history of whole and torn writes the next event is read back behind what was there exactly when the file ends with a complete line; otherwise it is lost |
| SpoolTears.TornAppendIff | internal/audit/spool.go:83-86 | behind one write torn off anywhere that is exactly when the tear was at the end of a line, and otherwise the torn event is lost too |
| SpoolTears.AppendPrefix | internal/audit/spool.go:83-86 | whatever part of a write reaches the file, it gains no event but those written, and behind a complete line it loses none |
| JsonCuts.CutObject | internal/audit/spool.go:139-142 | a line cut off anywhere behind its first byte cannot be read, nor can a whole one with something glued to it, whatever the rows hold |
| Spool.AppendedFits | internal/audit/spool.go:134-135 | appending keeps a spool file readable exactly when every appended line fits the scanner |
| Spool.WholeWritesFit | internal/audit/spool.go:134-135 | recorded events never make a file of whole writes unreadable |
| Spool.SpoolStaysCapped | internal/audit/spool.go:73-78 | append, rotate and remove keep the total size within the cap |
| Spool.Directory.Append | internal/audit/spool.go:59-96 | writes the lines under the cap: all of them, none, or a torn part and an error |
| Spool.RotationKeepsOrder | internal/audit/spool.go:112-122 | rotated files stay in name order, the order of their replay |
| Spool.RotatedFiles | internal/audit/spool.go:101-111 | a rotation moves the active file as it is under the new name and leaves the files of other names |
| Spool.Directory.Rotate | internal/audit/spool.go:98-124 | moves a non-empty active file aside and lists the pending files in name order |
| Delivery.SpoolOrDropKeeps | internal/audit/service.go:201-208 | rows end up in the spool, are counted as dropped, or are lost; dropped only when the spool is off, full or not written as a whole, lost only behind a torn write |
| DeliveryWriter.UndisturbedWriter | internal/audit/service.go:210-264 | a writer on a reachable database drains the queue, and the chain then has grown by exactly the first occurrences of the pending events it did not hold, in the order of the queue; nothing is spooled, dropped or lost |
| Delivery.AcceptedEventIff | internal/audit/service.go:201-208 | an event that the spool accepted is in it exactly when the file ended with a complete line, and else is lost uncounted |
| Delivery.RemoveInv | internal/audit/service.go:266-298 | a spool file is removed only once all its events are in the chain |
| Delivery.StepInv | internal/audit/service.go:181-299 | every step keeps the conservation of events and loses none, unless the process ends with events in its memory, a rotation collides or the spool is written behind a torn write |
| Delivery.RunConserves | internal/audit/service.go:181-299 | so does every run |
| Delivery.NothingDisappears | internal/audit/service.go:181-299 | from a new installation on, the recorded events are exactly those in hand, queue, batch, spool or chain, dropped or lost |
| Delivery.StrandedIff | internal/audit/service.go:344-347 | behind a finished Close an event can be stranded exactly when a producer had found the service open and not sent |
| DeliveryRuns.EventCanBeStranded | internal/audit/service.go:323-354 | a concrete run from a new installation on which that happens and the event is lost uncounted |
| DeliveryRuns.TearLosesNext | internal/audit/spool.go:83-86 | a concrete run from a new installation on which a torn write costs the event behind it, uncounted |
| DeliveryRuns.CollisionLosesFile | internal/audit/spool.go:106-107 | a concrete run from a new installation on which a rotation costs an event that was in a rotated file, uncounted |
| DeliveryReplay.ReadableFromNew | internal/audit/service.go:279-283 | from a new installation on, every run of recorded events without torn writes keeps all spool files readable |
| DeliveryReplay.UndisturbedReplay | internal/audit/service.go:266-299 | a replay of readable files on a reachable database comes to its end, and at its end the spool is empty and all its events are in the chain |
| Delivery.WriterStopsEmpty | internal/audit/service.go:181-265 | the writer stops only when every recorded event is stored, counted as dropped, lost before or still in a producer's hand |
| Delivery.OrderlyExit | internal/audit/service.go:323-354 | when a Close that was waited for has returned with an empty queue and no producer past its check, the end of the process, whenever it comes, loses only events whose Record has not returned |
| Delivery.TimedOutClose | internal/audit/service.go:323-342 | a Close that is not waited for touches nothing; the end of the process then loses exactly what producers, queue and writer hold |
| Delivery.RotationKeepsFilesIff | internal/audit/spool.go:106-107 | a rotation keeps every rotated file exactly when it does not put other data onto a taken name |
| TopNodes.FindTopNodes | internal/graphjob/node.go:268-292 | exactly the nodes that reach the node and have no incoming edge, on every edge list, cyclic ones too |
| Graph.GraphBuilder.constructor | internal/graphjob/node.go:301-311 | the indexes resolve every output to its last declarer and every id to its last node |
| Graph.GraphBuilder.NodeByInput | internal/graphjob/node.go:313-324 | looks an anchor up by its declarer, else by its prefix |
| Graph.DeclaredProducer | internal/graphjob/node.go:313-324 | in a well-declared graph the producer of an anchor is the node that declares it |
| Graph.LastWins | internal/graphjob/node.go:301-311 | of several nodes with an id, or declarers of an output, the last one counts |
| Graph.UndeclaredProducer | internal/graphjob/node.go:314-323 | an anchor that nobody declares belongs to the node whose id stands before its last "-output-" |
| Graph.DatatableMeaning | internal/graphjob/node.go:126-139 | a component's datatable is its first selection that is not empty, else its first attribute |
| Graph.PlatformComponents | internal/graphjob/node.go:201-209 | the platform's own components: two definitions, or two code names without one |
| Graph.TaskIdInjective | internal/graphjob/node.go:326-333 | task ids collide only for equal components, or when one component is named like another's extra task |
| Render.Job.RenderInputs | internal/service/graph_chain_render.go:30-99 | the loops compute the wiring of every task, or the first error |
| Render.Job.RenderOutputs | internal/service/graph_chain_render.go:144-166 | renames every output, then every input that names one |
| Render.Job.RenderCustomizeSpec | internal/service/graph_chain_render.go:179-207 | inserts the extra task before each split one, or fails |
| Render.Job.Prune | internal/service/graph_chain_render.go:168-177 | keeps the other tasks in order |
| Render.Job.Handle | internal/service/graph_chain_render.go:17-28 | runs the stages on a copy |
| RenderShape.RenderSucceedsIff | internal/service/graph_chain_render.go:38-97 | rendering succeeds exactly when every input resolves, every platform component has a datatable and every modification has two outputs |
| RenderContent.SubmittedContent | internal/service/graph_chain_render.go:179-278 | place by place, what the submitted tasks run: an ordinary component's definition with its custom attributes replaced; for a modification first the inserted task (identity, or the edited attributes with the type of their kind, reading the stored report) and then the one that reads it back |
| RenderContent.WiringError | internal/service/graph_chain_render.go:38-97 | a failing wiring reports what is wrong with the first input that does not resolve, of the first such component |
| RenderContent.SplitError | internal/service/graph_chain_render.go:213-217 | else the first modification without two outputs is reported |
| RenderShape.WiringMeaning | internal/service/graph_chain_render.go:48-96 | each input is rendered in its place; the dependencies are the selected producers |
| RenderShape.Members | internal/service/graph_chain_render.go:168-207 | the submitted tasks are what the components that are not platform ones were split into |
| RenderShape.DependenciesAreClosed | internal/service/graph_chain_render.go:79-83 | every dependency names a submitted task |
| RenderShape.DistinctIdsIff | internal/service/graph_chain_render.go:228-230 | submitted ids are distinct exactly when no component is selected twice and none is named like another's extra task |
| RenderFlow.CyclicIff | internal/service/graph_chain_render.go:79-97 | the submitted tasks form a cycle exactly when the components do |
| RenderFlow.FlowIff | internal/service/graph_chain_render.go:144-166 | a connected input is read under its new name, and a task waited for produces it exactly when the output survives the split; no other component does |
| RenderFlow.FlowPreserved | internal/service/graph_chain_render.go:213-239 | with two outputs per modification component every connection survives |
| RenderFlow.EveryInputFlows | internal/service/graph_chain_render.go:48-97 | every input of every submitted task, in its place, is external or produced by a task it waits for; an inserted write task's own input is excepted |
| RenderFlow.ExternalFlow | internal/service/graph_chain_render.go:66-92 | datatables and earlier outputs are passed on under their own ids |
| RenderFlow.BaseInputFlows | internal/service/graph_chain_render.go:221-238 | in the submitted job the base task of a split component waits for the extra task that produces its one input |
| RenderFlow.ThirdOutputIsLost | internal/service/graph_chain_render.go:214-225 | a concrete graph whose third output nobody produces |
| Fold.MergeExtendedTasks | internal/service/job_sync_service.go:229-267 | the loops over the maps compute the merge, in whatever order they visit them |
| Fold.CutOfExtra | internal/service/job_sync_service.go:239-242 | an extra report reaches its base exactly when the base id has no double dash and does not end in a dash |
| Fold.NamedByAlias | internal/service/job_sync_service.go:234-238 | a report goes by its alias, and by its task id only without one |
| Fold.FoldUndoesSplit | internal/service/job_sync_service.go:245-266 | one status per submitted id folds back to exactly the base ids if and only if no id has a double dash and every extra id is cut to an id |
| Fold.ReportsReachTheirTasks | internal/service/job_sync_service.go:239-266 | each report is folded into the task it is about if and only if, besides, no split id ends in a dash |
| Fold.UncleanIsNeverReported | internal/service/job_sync_service.go:239-242 | an id with a double dash never gets a status |
| Fold.TrailingDashMisfolds | internal/service/job_sync_service.go:239-242 | where the extra report of an id ending in a dash goes |
| Fold.MergedStatus | internal/service/job_sync_service.go:253-265 | with the last reports of base and extra: a split component succeeds only if its base does and its extra did not fail, and fails if either fails; a failed extra brings its message and its parties along, and all else is the base's |
| Fold.BaseAlone | internal/service/job_sync_service.go:253-265 | without an extra report the last report of the base is taken as it is |
| FoldRendered.FoldUndoesRender | internal/service/job_sync_service.go:229-267 | both conditions for a rendered job: when its statuses come back to exactly its persisted tasks that are not platform ones, and when each reaches its own |
| Sessions.LegacySessionsOk | internal/service/auth_session.go:117-128 | a database of older sessions, without token ids, ends or even session ids, satisfies the invariant from which the runs start |
| Sessions.RunInv | internal/service/auth_session.go:109-175 | every interleaving keeps the token invariant; session ends do not move and deleted rows do not return |
| Sessions.AtMostOneRedemption | internal/service/auth_session.go:153-174 | each refresh token is redeemed at most once, on old rows without a stored id too |
| Sessions.ReuseRevokes | internal/service/auth_session.go:169-173 | a call whose token was redeemed meanwhile fails its swap and deletes the session |
| Sessions.ReuseEndsSession | internal/service/auth_session.go:109-175 | in every interleaving a call whose token was redeemed before or while it ran, wherever it stands, ends with its session deleted, for good |
| Sessions.RaceEndsSession | internal/service/auth_session.go:153-173 | of two racing calls with one token, when one wins, the other's end finds the session deleted, whatever happens in between |
| Sessions.RevokedStaysRevoked | internal/service/auth_session.go:79-85 | a revoked session never comes back |
| Sessions.TokensEndWithSession | pkg/auth/jwt.go:148-158 | no chain of refreshes yields a token beyond the session's end |
| Sessions.NothingAcceptedBeyondEnd | internal/service/auth_session.go:86-93 | in every interleaving, behind the end of a session neither a refresh nor a validation accepts a row that carries it |
| SessionService.AuthService.RefreshToken | internal/service/auth_session.go:105-175 | run alone it is the uninterrupted run of its steps; it refreshes exactly an unexpired token that the row holds, of a session neither idle too long nor ended, with the account unchanged since login, and otherwise says why and deletes the row; the new pair ends with the session |
| SessionService.AuthService.ValidateSession | internal/service/auth_session.go:177-219 | the same for validation: it accepts exactly readable data of a session neither idle too long nor ended, with the account unchanged since login, slides its last use, and deletes any other row |
| SessionService.LoginOpensSession | internal/service/auth_session.go:30-47 | a login opens a session that both its tokens can use up to the idle timeout, its end and the next change of the account, and no longer |
| Throttle.LoginThrottle.Fail | internal/service/auth_throttle.go:46-69 | computes the table after a failure for every order of a clean-up's walk, reports a new lock, and keeps the table within its bound |
| Throttle.LoginThrottle.CleanUp | internal/service/auth_throttle.go:88-106 | drops the expired entries and, when that is not enough, every second key of the walk over the rest |
| Throttle.SlidingWindow | internal/service/auth_throttle.go:47-69 | any max + 1 consecutive counted failures span at least the lock duration, any two with a threshold below one |
| ThrottleLocks.LocksIff | internal/service/auth_throttle.go:47-69 | over any history, a counted failure locks exactly when it is the last of max counted ones that follow each other within the lock duration, none of which has locked before |
| ThrottleLocks.LockHolds | internal/service/auth_throttle.go:58-66 | a lock holds for exactly the lock duration, whatever came before |
| Throttle.TableActsPerKey | internal/service/auth_throttle.go:46-86 | in every run of failures, resets and clean-ups in which no live entry of a key is dropped, the table treats the key as if it were alone |
| Throttle.TableWindow | internal/service/auth_throttle.go:46-106 | so the bound holds of the failures that the table counted |
| Throttle.IgnoredFailuresLeaveNoTrace | internal/service/auth_throttle.go:58-60 | over any history, entry and lock are those of the counted failures alone: failures during a lock neither count nor extend it |
| Throttle.LiveEntryMayBeDropped | internal/service/auth_throttle.go:88-106 | a live entry, whatever its expiry, can be dropped by a failure of another key, for some order of the walk, exactly when that key has no live entry and the live entries fill the table |
| Throttle.FullTableIsReachable | internal/service/auth_throttle.go:46-69 | a table full of live entries comes about when each of that many keys fails once |
| Statuses.TaskNameRoundTrip | internal/graphjob/status.go:88-108 | a stored task status normalises back to itself |
| JobReports.StoredJobNames | internal/graphjob/status.go:64-86 | which stored job names, older ones included, count as finished and as what |
| JobReports.StoredTaskNames | internal/graphjob/status.go:88-108 | what each stored task name stands for |
| JobReports.CanonicalMeaning | internal/graphjob/status.go:73-76 | space around a stored name and the case of its letters do not matter |
| TaskLogs.Dedupe | internal/graphjob/log.go:76-88 | the loop keeps the first occurrence of each line |
| TaskLogs.FallThroughAddsNothing | internal/graphjob/log.go:39-74 | the fall-through into the running branch adds no line |
| TaskLogs.SuccessLogs | internal/graphjob/log.go:46-66 | the lines of success and stop, with the start exactly when it was not seen |
| TaskLogs.FailureLogs | internal/graphjob/log.go:46-71 | failing logs each reason once, behind the start when it was not seen; starting logs the start |
| TaskLogs.LogTexts | internal/graphjob/log.go:12-35 | the text of the four lines |
| JobSync.ApplyKeeps | internal/service/job_sync_service.go:283-343 | every event keeps failed and stopped jobs free of running and initialised tasks |
| JobSync.RunKeeps | internal/service/job_service.go:376-421 | so does every run of reports, deletions and user stops |
| JobReports.RestMeaning | internal/service/job_sync_service.go:313-325 | in stored names: no task of a failed or stopped job is running or waiting |
| JobSync.FinishedStays | internal/service/job_sync_service.go:181-187 | reports and deletions never change a finished job or its tasks |
| JobSync.RedeliveryChangesNothing | internal/service/job_sync_service.go:166-196 | delivering a report again leaves job, tasks and log lines as they were |
| JobReports.ReportedJob | internal/service/job_sync_service.go:271-343 | what a report makes of an unfinished job, in Kuscia's state names and the stored ones: "Succeeded" and "Failed" settle it only with an end time |
| JobReports.ReportedTask | internal/service/job_sync_service.go:284-326 | its reported tasks take the status of their own state, message, progress and lines; what a job that ends badly leaves running or waiting is stopped; other tasks stay |
| JobReports.DeletedMeaning | internal/service/job_sync_watch.go:481-507 | a vanished job stops unless it has finished or the poller misses it before it is old enough |
| JobReports.UserStopMeaning | internal/service/job_service.go:376-421 | the user's stop takes a job of any status, and is refused without permission, without the job, and for another project's |
| JobStore.Synchroniser.UpdateJob | internal/service/job_sync_service.go:269-345 | the loops over merged reports and leftover tasks compute the update of one job, in whatever order |
| JobStore.Synchroniser.SyncJob | internal/service/job_sync_service.go:166-196 | leaves unknown and finished jobs alone and keeps the invariant |
| JobStore.Synchroniser.MarkJobDeleted | internal/service/job_sync_watch.go:481-507 | stops an unfinished job and its tasks, unless the poller came too early |
| JobStore.Synchroniser.StopProjectJob | internal/service/job_service.go:376-421 | stops a job of any status for its project's owner, or refuses |
| JobStore.Synchroniser.PollOne | internal/service/job_sync_service.go:149-162 | counts misses, clears them on a report, and takes the third as a deletion, keeping the count when the deletion fails |
| JobStore.Synchroniser.HandleWatchEvent | internal/service/job_sync_watch.go:410-429 | a watch event clears the count and synchronises, or stops the job and leaves the count |
| JobStore.Synchroniser.PruneNotFound | internal/service/job_sync_watch.go:440-448 | forgets the counts of the jobs that the round did not poll, and no others |
| JobStore.MissesAreCounted | internal/service/job_sync_watch.go:433-468 | over every mix of polls, watch events, rounds and database failures the counter is the number of misses since the job was last heard of that no deletion has answered |
| JobStore.UnansweredMeaning | internal/service/job_sync_watch.go:457-467 | those are the last misses, with no applied one among the third and later; without database failures their number is taken modulo three |
| JobStore.TablesAfterMiss | internal/service/job_sync_watch.go:450-468 | a miss applies the deletion exactly when at least two unanswered ones precede it and the database takes it, and else leaves the tables alone |
| JobStore.TablesAfterSighting | internal/service/job_sync_watch.go:410-429 | every report or change that the database takes is synchronised, a deletion seen by the watch stops the job, and nothing else changes the tables |
| JobStore.ObservingKeeps | internal/service/job_sync_watch.go:410-429 | polls and watch events keep failed and stopped jobs free of running and initialised tasks, however often the database fails |

## Left out

- SM3, the JWT signature, random ids and clocks are parameters; a transaction is one atomic step that leaves no trace when it fails, and I/O errors are nondeterministic outcomes.
- Verify: the text of the reason, the row id of a break and the time of the report; equal anchors keep their supplied order, where Go's sort may not.
- Append: the model's sequence numbers are unbounded integers, and row ids of the database are not modelled; event ids that were archived are not known to the deduplication, as in the source, so nothing is claimed across archival.
- EnsureTail: its read of rows and segments is one step.
- ArchiveFile: of JSON the reader takes only compact flat objects of strings and integers, without surrogate escapes, and matches member names exactly; integers are unbounded; the `id` column is not part of the model, nor are file names that the operating system refuses.
- Spool: white space is ASCII white space; file errors other than a failed or torn write, a failed rename or a failed read are left out.
- Delivery: events are followed by their ids, since the spool may replace invalid text; anchoring and the metrics other than the drop count are left out.
- EventRows: an event's time is given in microseconds, so cutting it to them is left out.
- Render: TEE conversion beyond the datatable prefix, SCQL, AUTONOMY routing and the selection of parties are left out; what a payload says as JSON and which reports are stored are parameters; node definitions are records, not JSON.
- RenderFlow: the input of an inserted io/write_data task is not a connection of the graph and is excepted from the data flow.
- Graph: `UpstreamGraphNodeFromInput` and the partition helpers serve result naming and are left out.
- JobSync: schedule jobs and their hook, registered handlers and result files are left out; a task's log lines are kept with the task, so their order across tasks is not modelled, and a stop by the user is one step.
- Statuses: upper-casing and trimming are those of ASCII.
- Sessions: of the session data only whether it can be read, audit records and failing database statements are left out, and a row's first match is the one with the smallest id.
- Throttle: the account-wide counter kept in the database is left out.
- Handlers, paging queries, datasource checks, OpenAPI, scripts and the web front end.
