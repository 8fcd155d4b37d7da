# Verification of vai's storage and synchronization core

vai is a version-control server and client for agents that work in parallel. This
project models the parts of it that have to keep several pieces of state in
agreement, and proves what they keep:

- **Event log** (`event_model`, `segment_names`, `log_lines`, `log_spec`, `log_index`,
  `log_runs`, `log_any_runs`, `event_log`, `event_codec`). Append-only segment files and a table that points
  into them by byte offset: choosing and rotating segments, offsets, queries, crashes between
  the two writes, and rebuilding the table, also when the rebuild dies.
- **Store-backed merge file system** (`merge_keys`, `merge_spec`, `merge_fs`). Reads are
  cached, writes and deletes are buffered until a flush; the whole stands for a plain map.
- **Plan, submit and pull** (`server_model`, `workspace_model`, `file_workspace`,
  `server_merge`, `server_history`, `tree_size`). Many clients against one server: the surprise
  check, the choice of the upload mode, how the server stages an upload and merges it into its
  head, and what is left when any of these calls fails. The server is the one with an object
  store; its fast-forward merge is proved against the merge file system, and so is what the
  snapshots of earlier merges tell a workspace that is behind the head.
- **Textual merge** (`text_hunks`, `text_merge`, `text_ends`). The line differences of two
  versions with their base, the test whether they overlap, the text that keeps both, what
  merging again makes of it, and which line ends survive.
- **Diffs and status** (`diff`, `record_events`, `status`). File and entity changes that
  replay to the right state, the events recorded for them, and two comparisons with the
  server that agree.
- **Learned merge patterns** (`pattern_model`, `merge_patterns`) and the **conflict engine**
  (`conflict_model`, `conflict_engine`).
- **Percent-encoding** of paths (`percent_encoding`).

Objects whose methods change state are classes; each method is proved to take the step of a
transition function over plain values, and the properties over whole runs are lemmas about
that function. Files, tables and object stores are sequences and maps of bytes. Strings are
compared by code point, which is the order of their UTF-8 bytes. Clocks, the answers of the
network, and the outcome of server calls are parameters. The iteration order of hash maps
is any order.

## Where the code does something else than it says

The model follows the code. These are the places where the code falls short of what its
comments or its design promise, with the lemmas that say exactly when it does:

- A rebuild of the event index fails, and leaves a partial table, if anything was appended
  while the last stored line was missing from the table, after a crash or after a rebuild that
  died: the append reuses an id (`LogRuns.RecoveryExact`).
- A rebuild computes wrong offsets exactly for files with a line before the last that ends in
  CR LF; the log itself never writes one (`LogLines.OffsetsExact`).
- Segment names sort like their numbers only up to 999999. Number 1000000 sorts before it, so
  it is appended to for ever. Queries and rebuilds stay correct (`LogRuns.SegmentSizes`,
  `LogIndex.RebuildRestores`).
- The read cache of the merge file system survives a write. A read is outdated exactly when the
  caller has read the path, then written something else, then flushed, with no delete or
  unflushed write since (`MergeSpec.RunExactByHistory`). A flush ignores every refused delete,
  not only missing files (`MergeSpec.FlushExact`); a flush that fails forgets what it has not
  written (`MergeSpec.FailedFlush`).
- Listing a snapshot whose version contains a slash returns keys that do not exist
  (`MergeKeys.SnapshotListingsFaithful`, `MergeSpec.ListingExact`).
- "HEAD advances, the workspace closes, … or none of it": once the server has merged, a lost
  reply or a local file that cannot be written gives the caller an error with the server's head
  moved and the workspace open (`WorkspaceModel.FailedSubmit`). After that, trying again is
  refused (`WorkspaceModel.AcceptedOnce`). After a failure before the merge, trying again
  completes the submit exactly when the files that were already flushed neither put it over the
  limit on deletions nor are a surprise, and, in a workspace behind the head, all merge again to
  what they are (`WorkspaceModel.RetryCompletes`). The limit can refuse it for good
  (`WorkspaceModel.RetryRefused`), and a text that is merged again keeps its form only if our
  side rearranges the base (`TextMerge.MergeAgain`): lines are inserted twice
  (`TextMerge.MergeAgainDuplicates`), or the merge overlaps (`TextMerge.MergeAgainConflicts`).
- The server answers a merge with a new version even when it cannot write its head. Versions are
  replaced at most once exactly when every merge but the last could write it
  (`WorkspaceModel.SubmitsFormAChain`).
- `submit_forcing_deletions` ignores drift as well: it accepts what would be accepted without
  any surprise check (`WorkspaceModel.AcceptedExactly`, `WorkspaceModel.ForcedIgnoresDrift`),
  and a workspace opened at an outdated local head overwrites newer files unmerged
  (`WorkspaceModel.ForcedOverDrift`).
- An overlay submitted next to a small root does not arrive: the root is sent in its place
  (`WorkspaceModel.OverlayArrivesExactly`), and server paths that only the overlay knows are
  lost.
- "Without pulling first would silently delete this file": a submit without surprises still
  loses server paths that a full snapshot does not hold or the tarball skips, and paths that an
  earlier upload of the same workspace listed as deleted
  (`WorkspaceModel.SurpriseFreeKeepsPaths`, `WorkspaceModel.DeletionTakenBack`).
- Deleting a file that the server has is itself a surprise, so it takes force
  (`WorkspaceModel.AcceptedExactly`), and a workspace behind the head that deletes such a file
  without also sending it anew cannot be merged at all (`WorkspaceModel.AcceptedExactly`,
  `WorkspaceModel.BehindDeletionRefused`).
- "First snapshot after base_version carries the base-version content": it does for the paths that
  the base has. A path that the head has added since has no snapshot, so a workspace that adds it
  too replaces it without a merge; once the head has changed it again, the content that it first
  had at the head is taken for the base's (`ServerHistory.BehindMergeExactly`).
- The textual merge takes an insertion inside a range that the other side replaces for no
  overlap, and then slices its lines out of order; so it does, on one side only, for an
  insertion where such a range starts (`TextMerge.MergeExactly`, `TextMerge.MergeSymmetric`,
  `TextMerge.InsertionBreaks`).
- When both sides have changed lines, the merge turns every CR LF into a newline and can lose an
  empty last line (`TextEnds.MergeRawExactly`, `TextEnds.MergedHasNoCrLf`); a side that only
  changes line ends counts as unchanged (`TextEnds.FinalNewlineIsLost`).
- A push after a pull puts old contents back exactly when the files present at the pull were
  outdated (`WorkspaceModel.PullThenPushExactly`).
- An overlay file with the same content as its base counts as modified; the modified files are
  those that differ exactly when there is no such file (`Diff.ModifiedExactly`).
- Recording a diff again after a failed attempt records its first events twice
  (`RecordEvents.RecordedDiffIsQueried`), and if the failed append had stored its line, the
  next rebuild of the index fails (`RecordEvents.RetryBreaksRebuild`).
- Overlap classification does not return the worst level that applies when exactly one entity
  is shared and there is referential overlap (`ConflictModel.WorstLevelExactly`). No update
  gives a workspace entities, so no report is affected (`ConflictModel.ReportedLevelIsWorst`).

## Model

| member | source | states |
|---|---|---|
| SegmentNames.NameOrder | src/event_log/mod.rs:411-413 | up to 999999, sorting padded names as strings is sorting by number |
| SegmentNames.ParseName | src/event_log/mod.rs:421-426 | parsing a segment name gives back its number |
| SegmentNames.LastOfNames | src/event_log/mod.rs:409-430 | which of n segment names sorts last, the millionth included |
| LogLines.OffsetsExact | src/event_log/mod.rs:593-603 | for any file, the running offset of a rebuild is the start of every line if and only if no line before the last ends in CR LF |
| LogLines.WrittenOffsetsExact | src/event_log/mod.rs:395-403 | for files the log wrote, the running offsets are exact |
| LogLines.StrippedExactly | src/event_log/mod.rs:592-594 | what a rebuild is given of a line: a newline at its end goes, with a carriage return before it, and nothing else |
| LogLines.ChunksExactly | src/event_log/mod.rs:566-575 | a file read line by line is the lines put together, each with one newline, at its end, but for the last |
| LogLines.ChunksOfBytes | src/event_log/mod.rs:395-403 | reading a segment line by line gives back exactly the lines that were appended |
| LogSpec.ScanRunning | src/event_log/mod.rs:588-604 | every row that indexing any file adds is that of one of its lines, at the running offset of the line, blank lines counted |
| LogSpec.ScansLine | src/event_log/mod.rs:588-604 | a blank line is skipped, one that does not decode or whose id is taken ends the indexing with the rows so far, and any other adds its row |
| LogLines.WhiteSpace | src/event_log/mod.rs:566-575 | white space is taken from the end of a line that is read; a line is blank when it has nothing else |
| LogIndex.CurrentIsNewest | src/event_log/mod.rs:409-430 | the name chosen for the next line is the newest segment, or the one after it when that is full |
| LogIndex.WriteKeeps | src/event_log/mod.rs:382-407 | writing a line keeps segments numbered and bounded, and the returned position is that of the new line |
| LogIndex.QueryIsFilteredReplay | src/event_log/mod.rs:468-575 | with an index of the stored lines, every query is the filter of a full replay of the segments, in id order |
| LogIndex.MatchingExactly | src/event_log/mod.rs:468-564 | that filter keeps each event asked for as often as it is there, and no other |
| EventModel.TypesByName | src/event_log/mod.rs:233-263 | a query by type asks for exactly the events of the kind of that name, for each of the 26 kinds |
| EventModel.WorkspacesByKind | src/event_log/mod.rs:265-281 | a query by workspace asks for the events of eleven kinds with that workspace; a conflict resolution and a link to an issue are not among them |
| EventModel.EntitiesByKind | src/event_log/mod.rs:283-291 | a query by entity asks for the additions, modifications and removals of that entity |
| LogIndex.RebuildSucceeds | src/event_log/mod.rs:579-607 | a rebuild succeeds if and only if no id is stored twice; the table then has one row per stored line |
| LogIndex.RebuildRestores | src/event_log/mod.rs:579-607 | whatever the table held, a rebuild gives exactly the rows that appending produced |
| LogRuns.RunStored | src/event_log/mod.rs:355-430 | over any run of appends, crashes, rebuilds and rebuilds that die, segment files stay contiguous and well formed |
| LogRuns.SegmentSizes | src/event_log/mod.rs:36-37 | over any run, segments left behind hold at least the bound, and up to number 999999 exceed it by less than their last line |
| LogRuns.CarefulRun | src/event_log/mod.rs:355-380 | if nothing is appended while the last stored line is missing from the table, ids are 1 to n in order, and the table lists every line but those of a crash or a cut rebuild |
| LogRuns.CarelessRun | src/event_log/mod.rs:373-380 | otherwise some id is stored twice |
| LogRuns.RecoveryExact | src/event_log/mod.rs:579-607 | a rebuild after any run, dying rebuilds included, succeeds if and only if the run appended nothing while the last stored line was missing from the table |
| LogRuns.QueriesAfterRun | src/event_log/mod.rs:468-564 | after such a run every query returns the filter of the recorded events that the table lists, in id order, and the replay of the files is all of them |
| LogRuns.LookupById | src/event_log/mod.rs:527-539 | an id finds its own event, and ids out of range find none |
| LogAnyRuns.AnyRunAnswers | src/event_log/mod.rs:468-575 | after any run, careless or with failed and cut rebuilds, each row points at its own stored event, and every query succeeds with the filter of the events listed, in id order |
| LogAnyRuns.QueriesFind | src/event_log/mod.rs:468-564 | after any run, a query returns the listed events that are asked for, each once and by increasing id: "MergeCompleted" finds the completed merges |
| LogRuns.CrashThenRebuild | src/event_log/mod.rs:579-607 | a rebuild after such a run, whatever crashed or died in it, loses no event, and the next id is unused |
| EventCodec.LawfulCodecExists | src/event_log/mod.rs:395-396 | a serializer with the laws that the log relies on exists |
| EventLogStore.EventLog.NextFreeId | src/event_log/mod.rs:373-380 | the next id is above all ids of the table |
| EventLogStore.EventLog.ListSegments | src/event_log/mod.rs:432-443 | lists each segment file once and no other file |
| EventLogStore.EventLog.CurrentSegmentName | src/event_log/mod.rs:409-430 | computes the current segment of the directory |
| EventLogStore.EventLog.WriteToSegment | src/event_log/mod.rs:382-407 | appends one line to that segment and returns the segment's previous size |
| EventLogStore.EventLog.IndexEvent | src/event_log/mod.rs:445-466 | inserts the row, or refuses a taken id and changes nothing |
| EventLogStore.EventLog.Append | src/event_log/mod.rs:355-371 | never refused by the index; takes one append step of the log's life, or, when a write fails, none or that of a crash |
| EventLogStore.EventLog.QueryByType | src/event_log/mod.rs:470-477 | answers the type query from the table and the files |
| EventLogStore.EventLog.QueryByWorkspace | src/event_log/mod.rs:479-486 | answers the workspace query |
| EventLogStore.EventLog.QueryByEntity | src/event_log/mod.rs:488-495 | answers the entity query |
| EventLogStore.EventLog.AllEvents | src/event_log/mod.rs:510-517 | answers the query for everything |
| EventLogStore.EventLog.GetById | src/event_log/mod.rs:527-539 | returns the event of the row with the id, none without a row, an error if it cannot be read |
| EventLogStore.EventLog.QueryIndex | src/event_log/mod.rs:541-555 | returns the positions of the selected rows in id order |
| EventLogStore.EventLog.LoadEvents | src/event_log/mod.rs:557-564 | loads all positions, or fails with the first error |
| EventLogStore.EventLog.ReadEventAt | src/event_log/mod.rs:566-575 | reads one line at an offset, with errors for missing files and undecodable lines |
| EventLogStore.EventLog.IndexSegment | src/event_log/mod.rs:588-604 | indexes a file line by line, skipping blank lines and stopping at the first bad one |
| EventLogStore.EventLog.RebuildIndex | src/event_log/mod.rs:579-607 | replaces the table by a scan of all segments, succeeding exactly when the scan does |
| MergeKeys.KeysExact | src/merge_fs.rs:267-284 | distinct keys have distinct store paths if and only if the two prefixes are apart from each other and from the snapshot paths |
| MergeKeys.PathsByName | src/merge_fs.rs:267-284 | the store path of every key by name, "versions/{v}/snapshot/{path}" for snapshots; other keys are refused |
| MergeKeys.UsualPrefixesApart | src/merge_fs.rs:197-198 | the prefixes in use are apart |
| MergeKeys.PlainListingsFaithful | src/merge_fs.rs:286-291 | keys listed under overlay and base stand for the listed paths |
| MergeKeys.SnapshotListingsFaithful | src/merge_fs.rs:292-309 | snapshot listings do so exactly when the version has no slash, or what follows it commutes with `snapshot` |
| MergeKeys.PrefixesByName | src/merge_fs.rs:286-309 | the store and key prefix of each listing by name, whatever the number of slashes behind a snapshot's version; a snapshot without a version is refused |
| MergeSpec.StepTidy | src/merge_fs.rs:324-447 | every call, failing flushes included, keeps buffered writes, deletes and cached paths disjoint as the reads need it |
| MergeSpec.StepRefines | src/merge_fs.rs:324-447 | each call does to the view what a plain map does and leaves the store alone; results are the map's, for a read exactly when the cache entry is not outdated |
| MergeSpec.FlushExact | src/merge_fs.rs:239-265 | a flush succeeds exactly when no put fails, in any order; the store then is the view exactly when no stored path's delete was refused |
| MergeSpec.FailedFlush | src/merge_fs.rs:254-259 | after a failed flush each path has its old content or its buffered write, no delete is applied, and flushing again does nothing |
| MergeSpec.FlushCoherence | src/merge_fs.rs:354-366 | after a complete flush, a path reads outdated exactly when it was cached and overwritten with different content |
| MergeSpec.RunExact | src/merge_fs.rs:325-447 | over any run with flushes the view is the plain map, and all results are the map's if and only if no read meets an outdated entry |
| MergeSpec.RunExactByHistory | src/merge_fs.rs:339-366 | the same in terms of the caller's own calls: no read asks for a path that was read, written with other content and flushed, and not deleted or written again since |
| MergeSpec.SafeRunsReadFresh | src/merge_fs.rs:339-351 | runs whose flushes overwrite no cached path never meet one |
| MergeSpec.RunRefines | src/merge_fs.rs:325-447 | such runs are indistinguishable from a plain map that starts as the store |
| MergeSpec.BeforeFirstFlush | src/merge_fs.rs:183-187 | every run before its first flush is one of them, and leaves the store unchanged |
| MergeSpec.StaleAfterFlush | src/merge_fs.rs:339-366 | read, overwrite, flush, read: the last read returns the first content |
| MergeSpec.ListingExact | src/merge_fs.rs:368-416 | in every state the listing is strictly sorted and has exactly the keys that exist, if and only if the prefix is faithful |
| MergeSpec.ListingsByName | src/merge_fs.rs:286-416 | in every state, listing "overlay", "base" or "snapshot/{v}", with or without slashes behind, returns exactly the keys under that name that exist, sorted |
| MergeSpec.KeysAreIndependent | src/merge_fs.rs:354-446 | in any state, writing or deleting one key changes no other key's read or existence test |
| MergeSpec.DiffSeesTwoMaps | src/diff/mod.rs:147-192 | through this file system the diff engine sees two plain maps, the overlay and the base of the view |
| MergeFileSystem.S3MergeFs.ReadFile | src/merge_fs.rs:325-352 | takes the read step: buffer, deletes, cache, then store |
| MergeFileSystem.S3MergeFs.WriteFile | src/merge_fs.rs:354-366 | takes the write step |
| MergeFileSystem.S3MergeFs.ListFiles | src/merge_fs.rs:368-416 | merges store listing and buffer into the sorted list of the listing step |
| MergeFileSystem.S3MergeFs.Exists | src/merge_fs.rs:418-432 | answers the existence step |
| MergeFileSystem.S3MergeFs.DeleteFile | src/merge_fs.rs:434-446 | takes the delete step |
| MergeFileSystem.S3MergeFs.FlushAll | src/merge_fs.rs:244-265 | takes the flush step for some iteration order of the buffer |
| ServerModel.HalfSurvives | src/server/workspace.rs:1341-1356 | a first upload that the server accepts costs at most half of three or more files |
| ServerModel.RailExactly | src/server/workspace.rs:1320-1356 | an upload is stopped if and only if the head has three files or more and twice the number of deletions exceeds them: of the files that a full snapshot lacks, or of the non-empty paths that a delta lists |
| ServerModel.UploadStages | src/server/workspace.rs:1272-1400 | an upload stages the files that differ from the head's, and its deletions if it is not stopped, over what was staged |
| ServerModel.SkippedExactly | src/remote_workspace.rs:443-447 | a path is skipped exactly when a directory on it, at any depth, is `.vai`, `.git`, `target` or `node_modules` |
| ServerModel.UploadAgain | src/server/workspace.rs:1272-1320 | uploading again after an upload that was cut short stages what one upload would have staged |
| ServerMerge.FastForwardMerge | src/merge/mod.rs:1132-1169 | the fast-forward merge, run through the merge file system with any reads before and after and flushed, leaves the head's files as the protocol says for every order of writes, with those put back whose delete the store refused, or as an interrupted merge when the flush fails; the saved files are under the new version as the head had them, and all other paths are as before |
| ServerHistory.MergeFollows | src/merge/mod.rs:303-316 | so each such merge saves what it changes under its version, changes nothing else of the head, and leaves the snapshots of other versions |
| ServerHistory.HistoryGrows | src/merge/mod.rs:303-316 | any store begins a history of such merges, and each further one continues it |
| ServerHistory.CollectExactly | src/merge/mod.rs:1060-1088 | collecting the files that the head has changed, through the merge file system, never fails and finds for each path the content in the earliest snapshot that has it |
| ServerHistory.HeadChangesExactly | src/merge/mod.rs:1060-1088 | after any history of merges, that is the content which the path had when a merge first saved it; for a path of the base it is the base's, and if there is none the head still has it |
| ServerHistory.BehindMergeExactly | src/merge/mod.rs:386-413 | a workspace behind the head merges what the head has touched since with the base's own content, if the base has the path; a path that the head has added is overwritten unmerged, or, once changed again, merged with its first content |
| WorkspaceModel.HeadMoves | src/server/workspace.rs:432-452 | the server merges if and only if no check of client or server stops the submit and the merge goes through; then the files are the merged ones and the head moves if it can be written |
| WorkspaceModel.AnswerAfterMerge | src/file_workspace/mod.rs:898-943 | after a merge the submit succeeds exactly when the reply arrives and the local head and status can be written; which of the two have changed otherwise |
| WorkspaceModel.AcceptedExactly | src/file_workspace/mod.rs:740-776 | when a first upload is accepted: without force only if the base is the head and every server path is known locally and undeleted; always only if there is something to submit, at most half of the files go, of three or more, and something differs from the server; behind the head only if nothing conflicts and no server path is deleted without being sent |
| WorkspaceModel.BehindDeletionRefused | src/merge/mod.rs:387-388 | a workspace behind the head that deletes a server path is refused, forced or not |
| WorkspaceModel.SurpriseFreeKeepsPaths | src/file_workspace/mod.rs:166-173 | a merged submit without surprises keeps every server path if and only if no deletion staged earlier is on the server, and the upload is a delta or the root holds all server paths where the tarball finds them |
| WorkspaceModel.FailedSubmit | src/file_workspace/mod.rs:867-943 | after an error: the server has merged if and only if no check stopped the submit and its merge went through, and which heads have moved; otherwise no server path is lost; and what the kind of error tells |
| WorkspaceModel.AcceptedOnce | src/file_workspace/mod.rs:898-942 | a submit after which the server's head has moved although its client saw an error is refused when tried again |
| WorkspaceModel.RetryCompletes | src/file_workspace/mod.rs:898-942 | a submit that failed before the merge, tried again, leaves server and client as if it had succeeded at once, if and only if what was flushed neither exceeds the limit on deletions nor is a surprise, and, behind the head, merges again to itself |
| WorkspaceModel.RetryRefused | src/server/workspace.rs:1341-1356 | an accepted submit whose flush fails half-way and whose retries are all refused |
| WorkspaceModel.OverlayArrivesExactly | src/remote_workspace.rs:235-242 | a submitted overlay arrives if and only if the root is large or has the same files |
| WorkspaceModel.RootPushApplies | src/remote_workspace.rs:214-221 | both upload modes put the root's files on the server, and agree exactly when all server paths arrive in tarballs |
| WorkspaceModel.ForcedIgnoresDrift | src/file_workspace/mod.rs:766-776 | a forced submit does and answers the same whatever the base version is |
| WorkspaceModel.ForcedOverDrift | src/file_workspace/mod.rs:773-776 | forced from an outdated local head, an overlay overwrites files the client has never seen, without a merge |
| WorkspaceModel.SubmitCloses | src/file_workspace/mod.rs:926-938 | a submitted workspace is refused when submitted again; one opened at the new local head has no drift |
| WorkspaceModel.PathsNeverShrink | src/file_workspace/mod.rs:167-173 | over every run of many clients without force, retries after any failure included, the server's path set never shrinks, if server paths arrive in tarballs, overlays are submitted next to roots that are large or hold all server paths, and no overlay workspace takes back a deletion it has uploaded |
| WorkspaceModel.SkippedPathIsLost | src/remote_workspace.rs:443-447 | a surprise-free push that loses a path under a skipped directory |
| WorkspaceModel.OverlayOnlyPathIsLost | src/file_workspace/mod.rs:908-921 | a surprise-free overlay submit next to a small root that loses a path only the overlay knows |
| WorkspaceModel.DeletionTakenBack | src/server/workspace.rs:1358-1400 | a deletion that was refused, then taken back by the client, is carried out by the next submit |
| WorkspaceModel.SubmitsFormAChain | src/file_workspace/mod.rs:663-678 | merged submits form one chain, unforced ones based on the version they replace; no version is replaced twice, so at most one is merged per base, if and only if every merge but the last could write the head |
| WorkspaceModel.UnpulledIsFastForward | src/merge/mod.rs:211-220 | in any run, an unforced submit of a workspace not pulled since it was opened is merged at the head, if the server could write its head for this client's earlier merges |
| WorkspaceModel.PullCovers | src/file_workspace/mod.rs:959-1029 | a pull changes no present file and covers every server path |
| WorkspaceModel.PlanAfterPull | src/file_workspace/mod.rs:987-1019 | a plan after a pull is free of surprises exactly when something was missing or nothing had drifted, and no deleted path is on the server |
| WorkspaceModel.PullAgreesExactly | src/file_workspace/mod.rs:987-1009 | a pull that moved the base agrees with the server's contents exactly when the present files did before |
| WorkspaceModel.PullThenPushExactly | src/file_workspace/mod.rs:1011-1019 | the push after such a pull changes no server file's content if and only if the files present before agreed with the server; otherwise it puts the old ones back |
| WorkspaceModel.LateSubmitKeepsPaths | src/file_workspace/mod.rs:740-746 | if the server moves between a surprise-free plan and its upload, a path is lost exactly when one added in between is both sent and deleted by a delta |
| WorkspaceModel.LatePushRefused | src/merge/mod.rs:387-388 | a late full push of a root that lacks a server path is refused |
| TextHunks.LcsIndices | src/merge/mod.rs:619-652 | finds a common subsequence of two texts, and none is longer |
| TextHunks.HunksReplay | src/merge/mod.rs:655-687 | the hunks are in order with unchanged lines between them, applying them to the base gives the other text, and there are none if and only if the texts are equal |
| TextHunks.ReplacedExactly | src/merge/mod.rs:655-687 | the hunks replace exactly the lines of the base that are not in the common subsequence |
| TextHunks.ComputeHunks | src/merge/mod.rs:655-687 | computes those hunks; the filter for no-ops keeps them all |
| TextMerge.HunksOverlap | src/merge/mod.rs:693-715 | reports exactly whether some two hunks clash |
| TextMerge.OverlapExactly | src/merge/mod.rs:693-715 | two sides clash if and only if both replace some line of the base, or both insert lines, and replace none, at the same place |
| TextMerge.MergeExactly | src/merge/mod.rs:538-545 | the textual merge reports an overlap exactly when both sides replace some line of the base or both insert at the same place, breaks exactly when an insertion lies in the other side's replaced range, and otherwise is each side with the other's hunks applied where they belong: each replaces the lines it replaced in the base |
| TextMerge.MergeSymmetric | src/merge/mod.rs:721-768 | exchanging the sides gives the same result, except exactly for insertions where the other side's range starts |
| TextMerge.SameChangeOverlaps | src/merge/mod.rs:693-715 | the same change on both sides is an overlap |
| TextMerge.InsertionBreaks | src/merge/mod.rs:743-753 | two lines replaced by one side and an insertion between them by the other break the merge |
| TextMerge.MergeConserves | src/merge/mod.rs:721-768 | with the base's lines, the merged lines are those of both sides, each as often |
| TextMerge.MergeAgain | src/merge/mod.rs:386-397 | a merge repeated on its own result gives that result only if our side rearranges the base's lines, and if our side is the base |
| TextMerge.MergeAgainConflicts | src/merge/mod.rs:693-715 | if the head had the base's text, repeating the merge is an overlap |
| TextMerge.MergeAgainDuplicates | src/merge/mod.rs:721-768 | if the head replaced the line before our insertion, repeating the merge inserts our line twice |
| TextEnds.MergeRawExactly | src/merge/mod.rs:608-615 | a side with the base's lines leaves the other side as it is; otherwise the merged lines are joined, and reading them back gives them if and only if they survive the joining |
| TextEnds.JoinedLines | src/merge/mod.rs:761-767 | lines survive if and only if none before a newline ends in CR and the last is not empty, or is the only one and gets its newline |
| TextEnds.SplitThenJoin | src/merge/mod.rs:761-767 | splitting a text and joining its lines gives it back if and only if it has no CR LF and does not end in an empty line |
| TextEnds.MergedHasNoCrLf | src/merge/mod.rs:761-767 | the merge of two changed sides whose lines survive has no CR LF |
| TextEnds.FinalNewlineIsLost | src/merge/mod.rs:728-735 | a final newline that only the head adds is lost |
| TextMerge.ApplyHunks | src/merge/mod.rs:739-761 | applies hunks in order, or stops at a range of lines that is out of order |
| TextMerge.TryTextual | src/merge/mod.rs:530-545 | computes the textual level of a merge |
| FileWorkspaces.PlanMeaning | src/file_workspace/mod.rs:156-164 | a plan has surprises, and is empty, exactly when the protocol says so, in both modes; its paths are the added and modified ones, its surprises the server paths not known locally, after the drift, if there is one |
| FileWorkspaces.FileWorkspace.PlanOverlay | src/file_workspace/mod.rs:635-733 | the plan lists exactly the added, modified, deleted and server-only paths, each once, the drift, and the entity changes of the diff, and fails exactly when the diff does |
| FileWorkspaces.FileWorkspace.PlanRepoRootPush | src/file_workspace/mod.rs:795-865 | the same for a push from the root, sorted |
| FileWorkspaces.FileWorkspace.DoSubmit | src/file_workspace/mod.rs:867-943 | uploads, submits and writes local head and status as the protocol's forced submit, failures included |
| FileWorkspaces.FileWorkspace.Submit | src/file_workspace/mod.rs:735-746 | takes the unforced submit step of the protocol |
| FileWorkspaces.FileWorkspace.SubmitForcingDeletions | src/file_workspace/mod.rs:766-776 | takes the forced submit step |
| FileWorkspaces.FileWorkspace.DoPull | src/file_workspace/mod.rs:959-1029 | takes the pull step, early return included |
| FileWorkspaces.RemoteRepo.UploadWorkspace | src/server/workspace.rs:1272-1400 | stores changed files, checks the safety rail, and records deletions, as the protocol's staging |
| FileWorkspaces.RemoteRepo.SubmitWorkspace | src/server/workspace.rs:432-452 | refuses an empty or unmergeable workspace, and otherwise merges what is staged |
| FileWorkspaces.RemoteRepo.DownloadFiles | src/file_workspace/mod.rs:350-384 | all requested paths arrive with their contents, or the download fails; it fails exactly when some path is missing or a request is not answered |
| TreeSize.WalkBounds | src/remote_workspace.rs:338-375 | the early-exit sum never overstates the total, is exact within the threshold, and exceeds it exactly when the total does |
| TreeSize.DirSizeInner | src/remote_workspace.rs:347-375 | computes that sum, parents walking on after a child has stopped |
| TreeSize.UseDelta | src/remote_workspace.rs:235-236 | the upload mode is chosen as without the early exit |
| TreeSize.TarIsUnskipped | src/remote_workspace.rs:425-464 | the tarball has exactly the listed files with no skipped directory on their path |
| TreeSize.PackedIsTar | src/remote_workspace.rs:425-464 | what arrives at the server is what the walk appends, without files named `.vai` or `.git` |
| Diff.MergeDeletedPaths | src/file_workspace/mod.rs:1034-1065 | merges both sources of deletions, each path once, at its first occurrence |
| Diff.TableExactly | src/diff/mod.rs:370-374 | the table of a file has the ids of its entities and no others, each with the last entity of that id |
| Diff.SpanExactly | src/diff/mod.rs:388-394 | an entity's bytes are those of the content from its start to its end, as far as there are any |
| Diff.LinesCounted | src/diff/mod.rs:447-453 | each newline adds a line; text without one is one line, and nothing is none |
| Diff.EntityDeltaReplays | src/diff/mod.rs:364-445 | replaying a file's entity changes turns its base table into its overlay table; unreported common entities have equal bytes |
| Diff.ComputeEntityDiff | src/diff/mod.rs:364-445 | pushes exactly the entities that differ, each once, in some order, and fails exactly when a version does not parse |
| Diff.FileDiffsReplay | src/diff/mod.rs:147-198 | replaying the file diffs over the base gives base and overlay without the deleted paths of the base |
| Diff.ModifiedExactly | src/diff/mod.rs:157-163 | the modified files are exactly those that differ from the base if and only if no overlay file equals its base file |
| Diff.DiffOverlay | src/diff/mod.rs:147-187 | one diff per overlay file, with its entity changes |
| Diff.DiffDeleted | src/diff/mod.rs:189-218 | one diff per deletion that the base has, with the entities of the deleted file if it parses |
| Diff.ComputeWithFs | src/diff/mod.rs:138-226 | the whole diff, failing exactly for overlay files that do not parse in one of their versions |
| Diff.DiffEntities | src/diff/mod.rs:169-216 | the entity changes of a whole diff: in the `.rs` files of the overlay exactly the entities that are new, have other bytes or are gone, with their names, kinds and lines, and all entities of deleted `.rs` files that parse |
| RecordEvents.Record | src/diff/mod.rs:267-355 | appends one event per change, and activates the workspace; after a failed write the events before it stay, and perhaps the line of the one that failed, and the status does not change |
| RecordEvents.EventsRecorded | src/diff/mod.rs:286-347 | which kind of event is recorded for each change, with its path and hash or its entity |
| RecordEvents.LastSegmentExactly | src/diff/mod.rs:321 | an entity's name is the last segment of its qualified name |
| RecordEvents.EventsReplay | src/diff/mod.rs:286-347 | the recorded events replay a table of file hashes as the file diffs do |
| RecordEvents.AppendAllIsRun | src/diff/mod.rs:286-347 | recording keeps a healthy log healthy and numbers the new events consecutively |
| RecordEvents.RecordedDiffIsQueried | src/diff/mod.rs:267-355 | a later query by workspace returns what it did before, followed by exactly the recorded events, the first of them twice if a first attempt failed, whatever the failed append had stored |
| RecordEvents.RecordedFilesReplay | src/diff/mod.rs:267-355 | the events that a workspace's query returns after recording replay the base's files to base and overlay without the deleted files |
| RecordEvents.RecordedEntityIsQueried | src/diff/mod.rs:267-355 | a query by entity returns after recording what it did before, followed by one event for each change of that entity, of the change's kind |
| RecordEvents.RetryBreaksRebuild | src/diff/mod.rs:267-355 | recording again after an append that stored its line but no row makes the next rebuild fail |
| Status.CheckStatus | src/status.rs:172-204 | reports every difference once, strictly sorted by path |
| Status.ComputeDiff | src/remote_diff.rs:177-236 | the same without a filter; with one, only the filtered path |
| Status.ReportsAgree | src/remote_diff.rs:182-236 | two such reports are the same list, so both computations agree on all pairs of maps |
| Status.CleanExactly | src/status.rs:172-204 | nothing is reported if and only if the maps are equal |
| PatternModel.SameEntryExactly | src/merge_patterns/mod.rs:291-300 | conflicts share a library entry exactly when type and level agree |
| PatternModel.ClassifiedByWords | src/merge_patterns/mod.rs:252-289 | the type of a conflict by its level and by the words anywhere in its description, in either case, in order of precedence |
| PatternModel.RollbackSound | src/merge_patterns/mod.rs:406-413 | a rollback never meets the floor of the success counter |
| PatternModel.RunSound | src/merge_patterns/mod.rs:163-181 | in every reachable store the counters are the instances recorded and standing, and promotion holds exactly when not disabled, above ten instances, and at most one in ten rolled back |
| PatternModel.InstancesConserved | src/merge_patterns/mod.rs:309-371 | instance counts add up to the recorded instances |
| PatternModel.DemotedExactly | src/merge_patterns/mod.rs:373-419 | with n successes, n/10 rollbacks keep the promotion and the next one ends it |
| PatternModel.DisabledNeverApplies | src/merge_patterns/mod.rs:421-437 | a disabled pattern resolves nothing in any run until it is enabled again |
| MergePatterns.MergePatternStore.RecordResolution | src/merge_patterns/mod.rs:304-371 | updates or creates the conflict's entry and records the instance |
| MergePatterns.MergePatternStore.RecordRollback | src/merge_patterns/mod.rs:373-419 | rolls back one standing instance of the conflict and returns that instance's pattern, or does nothing without one |
| MergePatterns.MergePatternStore.DisablePattern | src/merge_patterns/mod.rs:421-437 | takes the disable step, with an error for an unknown id |
| MergePatterns.MergePatternStore.EnablePattern | src/merge_patterns/mod.rs:439-455 | takes the enable step, which re-evaluates the promotion |
| MergePatterns.MergePatternStore.CheckAutoResolution | src/merge_patterns/mod.rs:489-501 | returns a pattern exactly when the library has one for the conflict that meets the criteria |
| ConflictModel.ClassifiedSymmetric | src/conflict/mod.rs:222-343 | both workspaces are told the same level, files and entities |
| ConflictModel.ClassifiedExactly | src/conflict/mod.rs:222-343 | the files reported are those of both, and the entities those of both or, if there are none, those of one that the other's changes may affect; two shared entities are critical, and nothing shared is no overlap |
| ConflictModel.ReportIsUnique | src/conflict/mod.rs:160-187 | a report has each overlap once: two reports of the same scopes have the same overlaps |
| ConflictModel.WorstLevelExactly | src/conflict/mod.rs:218-221 | the level is the worst that applies, except with exactly one shared entity and referential overlap |
| ConflictModel.ReportedLevelIsWorst | src/conflict/mod.rs:142-187 | in any run, every level that an update reports is the worst that applies |
| ConflictModel.EngineHoldsLatest | src/conflict/mod.rs:135-195 | over any run the engine tracks exactly the live workspaces with the files of their last update, and no entities |
| ConflictModel.LaterUpdaterIsTold | src/conflict/mod.rs:142-187 | of two live workspaces that share files, the later updater's report had exactly the shared files |
| ConflictEngines.DedupSorted | src/conflict/mod.rs:256-263 | sorting and removing neighbours gives the sorted list of the union |
| ConflictEngines.ClassifyOverlap | src/conflict/mod.rs:222-343 | computes the classification from any iteration order of the sets |
| ConflictEngines.ConflictEngine.UpdateScope | src/conflict/mod.rs:145-187 | replaces the scope and reports each overlapping other workspace once, the most severe first |
| ConflictEngines.ConflictEngine.RemoveWorkspace | src/conflict/mod.rs:189-195 | takes the removal step |
| PercentEncoding.Encode | src/clone.rs:289-310 | encodes segment by segment |
| PercentEncoding.EncodeRoundTrip | src/clone.rs:287-310 | decoding by section 2.1 of RFC 3986 undoes the encoding |
| PercentEncoding.EncodeInjective | src/clone.rs:287-310 | distinct paths have distinct encodings |
| PercentEncoding.EncodedByBytes | src/clone.rs:294-305 | a path is encoded byte by byte: letters, digits, `-_.~` and slashes stay, any other byte becomes a percent sign and its two upper-case hex digits |
| PercentEncoding.EncodedIsUrlPath | src/clone.rs:294-305 | the output has only unreserved characters of section 2.3 of RFC 3986, slashes and escapes, and as many slashes as the path |

## Left out

- JSON: the event serializer is a pair of functions with laws (decoding undoes encoding; lines have no newline and do not end in white space), which is what serde_json's output satisfies. White space means ASCII white space, and invalid UTF-8 is not modelled.
- Event ids beyond 63 bits, and segment files with unusual names, which the methods handle but the run properties do not mention. A segment number of 2^32 - 1 wraps around as in a release build.
- `query_by_time_range`, which compares formatted timestamps.
- Changes to the object store by other parties while a merge file system is open.
- DiskMergeFs: its key mapping is the sibling of the modelled one; directories, symbolic links and its aliasing of `base/.vai` are not modelled.
- The structural and referential levels of a merge, and invalid UTF-8 in merged files. In the protocol, merging is any function of the path, the head's content and the uploaded content.
- Lapses of the upload handler that it does not report: a listing of the head that fails counts as an empty head, and deletions that cannot be recorded are forgotten.
- A line of the event log that a crash tears in the middle: the log's own comment rules it out, and what a rebuild makes of it depends on whether part of a serialized event can be decoded.
- The server without an object store, closing of issues, size limits and unsafe paths of tarballs, and a root that holds a file named `.vai-delta.json`. Refusals for such reasons are failures of a call in the protocol.
- The server's version table, whose write errors are ignored. In the protocol the store carries out all deletes of a merge that succeeds; ServerMerge.FastForwardMerge says what is left when it does not.
- Local writes of a pull that fail half-way, and a head file that is left torn.
- Local-mode submit, scope history, and issue resolution after a submit.
- Predicted merge conflicts: no code of the modelled planner creates that surprise.
- Plan, upload and submit are one step of the protocol; WorkspaceModel.LateSubmitKeepsPaths and WorkspaceModel.LatePushRefused say what happens when they are not. The two reads of head and file list are one step as well.
- Parsing of source files and content hashes are parameters; the hash of a merge pattern is taken to be injective.
- The success rate is compared as a fraction; rounding of the 64-bit quotient could matter only beyond 10^14 instances. Lower-casing of descriptions is for ASCII letters.
- Timestamps, descriptions and strategies of merge patterns, and the recommendation texts of overlaps.
- Unified diff texts, and failures to fetch them.
- Walking the local tree for hashes (ignored directories, secret files), and I/O errors of directory walks.
- Everything else in vai: other server handlers, graph, issues, work queue, versions, agents, authentication, command line and dashboard.
