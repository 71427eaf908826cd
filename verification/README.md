# Bongo: verified models of its storage, sweep and worker logic

Bongo is a clustered mail and calendar server written in Go.  This project models, in Dafny, the parts of it
that are hard to get right, and proves what they promise: the replicated state machine and its derived
indexes, the blob sweep, the attachment splitter, the DAV privilege filter, and the leader's workers.

`dafny verify dfyconfig.toml` verifies everything.  Loops and objects that the source mutates are methods and
classes here, each proved against a specification function; protocols are state machines whose runs interleave
every step, crash and failure of the code.  Hashing, parsing of headers and dates, protobuf decoding, float
rounding, the clock and the network are parameters.

| file | models |
|---|---|
| `Replay.dfy` | `FSM.Apply`, its watermark, and replay after a crash or restore |
| `RaftStore.dfy` | log keys, range scans and deletes, `FSM.Restore` on the shared keyspace |
| `IndexQueue.dfy`, `KeyKinds.dfy` | the deferred index queue and its in-flight counter; which keys are deferred |
| `Users.dfy` | the `users` table: inline indexing and startup reconciliation |
| `BlobGc.dfy`, `BlobGcLimits.dfy` | writers and the blob sweep, step by step; what it can stand |
| `SweepLoop.dfy` | the sweep across ticks: plan, re-scan, delete |
| `SpoolScan.dfy` | the two-pass spool scan against moving envelopes |
| `AttWalk.dfy`, `AttParts.dfy`, `AttSplit.dfy` | the walk over a message's parts, what it extracts said on the bytes, and cutting and rebuilding |
| `Privileges.dfy` | the token filter over multistatus bodies |
| `Reminders.dfy` | email reminders across leaders |
| `Subscriptions.dfy` | calendar subscriptions: apply, partial failure, validators |
| `ConfigDiff.dfy`, `Reload.dfy`, `HotPlaces.dfy` | config diff, reload with live consumers, and where the config has the hot keys |
| `TrustedNets.dfy` | did a reload widen the trusted networks? |
| `AuthLimit.dfy`, `AuthWindows.dfy` | the failed-login limiter, in one window and across windows |
| `MergeBusy.dfy` | merging busy periods |
| `Commands.dfy`, `Wrappers.dfy`, `Lexicographic.dfy` | shared definitions |

## What does not hold of the code, and when it does

Each item names the lemma with the exact condition and, in brackets, the failing case.

- `PebbleStore.DeleteRange` calls itself inclusive; it also deletes keys that extend its end, and is inclusive
  exactly when no such key is stored: `DeleteRangeInclusiveIff` (`ExtensionDeleted`).  For log keys it always is.
- `FSM.Apply` moves the watermark even when the store refused the entry.  In every state of every run a key then
  differs from the log exactly when the last command on it and the last stored one leave different values:
  `RefusedKeyIff` (`RefusedDelete`).
- A failed watermark write is only logged, and the next entry comes.  The source promises that a replay does not
  bring deleted data back; after lost marks and a crash it does, for a while (`LostMarksResurrect`).  Replay from
  m over a store as far as n shows no key that was gone exactly when every key put in between is there at n:
  `ReplayShowsIff`.  Once it is as far as delivery ever was, all is as in the log: `CaughtUp`.
- A mail record that does not parse leaves the old row in place: `StepKeepsProjectionIff` (`StaleRowStays`).
  When the queue is full a command is indexed ahead of those waiting; that is right exactly when the last of them
  that decides its row leaves the same: `JumpQueueIff` (`OvertakenPutReturns`).
- A new profile whose address another row holds, or a profile that does not parse, leaves the `users` table off.
  The table is exact in every run exactly for the logs without such an entry: `TableExactIff`
  (`TakenNameLosesRow`).  Reconciliation never inserts rows, so it ends exact exactly when every profile parses
  and none lacks a row: `ReconcileExactIff` (`ReconcileLeaves`).
- When writes of the FSM itself fail, rows can be lost for good.  If the store may refuse an entry, the table is
  exact once everything is delivered, in every run, only for a log without a profile: `LossyExactIff`; a profile is
  stored, the process crashes before its row, and the replayed entry is refused while the mark moves
  (`RefusedReplay`).  If only marks are lost, `TableExactIff` no longer suffices (`LostMarkClash` on the way,
  `LostMarksLoseRow` for good); the delivered table is exact if every profile parses, no two users are ever given
  the same address, and no empty id is both put and deleted: `UnmarkedExact`.
- The spool scan is sure to meet an envelope exactly when it goes back at most once: `ScanCompleteIff`
  (`DodgerUnseen`).  A reference that moves is sure to survive three scans exactly when it moves at most twice:
  `SurvivesIff` (`ThreeMovesDelete`).
- The sweep loses no blob exactly when every writer commits within the grace period, counting the age of its
  stamp, and no reference is copied or moved into a source that the second scan has read: `SafeIffPrompt`
  (`DawdleIsRun`, `SlipIsRun`).  The code does not meet the second half: `collectReferencedBlobs` reads the user
  records first and the spool last, and delivery moves a reference from the spool to a user record.
- Reminders go out at most once exactly when no record is written outside the term it was read in, and records
  outlive the passes that could need them: `AtMostOnceIff` (`RelapseIsRun`, `ForgottenIsRun`).  With the
  server's times the second holds while no pass takes longer than 19 hours, which nothing in the code bounds;
  `ApplyCommand` checks leadership, not the term, so the first is not assured.
- A publisher that goes back to an earlier feed version can have a half-applied feed confirmed as "not
  modified": `SafeIffFresh` (`RevertedFeed`).
- An empty block added at the end of a repeated list, such as `stage`, is not reported by a reload, although the
  documentation says every changed setting is: `QuietIff` (`EmptyBlockUnseen`).
- `trustWidened` also reports some lists that trust nothing new, exactly when some new network is uncovered but
  the old ones tile all of them: `ReportRightIff` (`HalvesCountAsWidened`, `EdgeEscapesPrefixTest`).

Remarks on the source.  The privilege filter does what it is for, under all rules, exactly when at every write
element the href its flags hold is the one in scope (`FairIff`).  The answers to a PROPFIND, which is all it sees,
meet that (`ShapedIsAlike`); nested responses, sets outside a response and markup in a href would not (`StaleHref`,
`NestedResponse`, `MarkupInHref`).  The comparator of `mergeBusy` subtracts 64-bit instants and would wrap on ranges over 2^63
seconds (`MergeExactIff`); the only caller refuses ranges over 366 days, and for those the merge is exact
(`ServerRangesExact`).  `attsplit` finds the line-start delimiters exactly also for a boundary that contains a line
feed.  `internal/agent/antispam.go` says the config accessors always yield a valid pair of thresholds; they do not
when a positive threshold rounds to zero as a float32 (`PairValidIff`).

## Model

| member | source | states |
|---|---|---|
| Replay.Fsm.Apply | internal/cluster/fsm.go:271-306 | over the fold of the log up to an entry, or one past it, the call leaves the fold with the entry, marked; what the mark covers is skipped |
| Replay.ApplyIsSteps | internal/cluster/fsm.go:260-306 | the steps of the runs are what Apply does, for each outcome of its two writes |
| Replay.MarkedIndex | internal/cluster/fsm.go:251-269 | the stored watermark is read back as written, for every uint64, and leaves the application keys alone |
| Replay.BigEndianFirst | internal/cluster/fsm.go:260-266 | the watermark's most significant byte comes first |
| Replay.AlwaysSettled | internal/cluster/fsm.go:260-306 | in every state of every run, with refused entries, lost marks, crashes, snapshots, restores and replays, each key holds what the log, less the refused entries, leaves of it at some position between where delivery stands and where it ever got to |
| Replay.AlwaysNearFold | internal/cluster/fsm.go:260-306 | until a mark is lost the keys are the fold of the log, less the refused entries, at the watermark or one command past it |
| Replay.CaughtUp | internal/cluster/fsm.go:260-306 | once delivery is as far as it ever was the keys are the fold of the log, less the refused entries |
| Replay.ReplayShowsIff | internal/cluster/fsm.go:268-270 | a replay shows no key that was gone iff every key put in between is there at its end |
| Replay.LostMarksResurrect | internal/cluster/fsm.go:260-270 | the run in which a deleted key is back during a replay |
| Replay.NeverResurrects | internal/cluster/fsm.go:271-306 | in every run a visible key was put, with that value, by the last command on it, refused ones apart, before its position |
| Replay.FoldLastWriter | internal/cluster/fsm.go:363-470 | the fold holds a key iff its last command is a put, and then that value |
| Replay.DeletedStaysDeleted | internal/cluster/fsm.go:271-306 | a key whose last command is a delete is absent |
| Replay.RefusedKeyIff | internal/cluster/fsm.go:271-306 | in every state of every run a key is as the log up to n has it iff the last command on it before n and the last kept one leave the same |
| Replay.LaterCommandHeals | internal/cluster/fsm.go:271-306 | a refused entry harms no key whose last command was stored |
| Replay.RefusedDelete | internal/cluster/fsm.go:271-306 | the run in which a refused delete leaves its key for good |
| Replay.ReplayConverges | internal/cluster/fsm.go:260-306 | replay from any earlier position over a state further on ends in the fold of the log |
| RaftStore.KeySuccessor | internal/store/pebble.go:209-240 | below the successor lie exactly the smaller keys and the extensions of the key |
| RaftStore.ScanIsPrefix | internal/store/pebble.go:109-127 | a scan up to the successor visits exactly the keys with the prefix |
| RaftStore.DeleteRangeInclusiveIff | internal/store/pebble.go:147-180 | the range delete removes exactly start..end iff no stored key in reach extends end |
| RaftStore.ExtensionDeleted | internal/store/pebble.go:147-180 | a key past the end that extends it is deleted |
| RaftStore.LogKeyLaws | internal/cluster/raftstore.go:38-41 | over all uint64: the key parses back, is injective, and sorts as the index |
| RaftStore.NumberOfDigits | internal/cluster/raftstore.go:170-181 | parsing undoes fixed-width formatting |
| RaftStore.Store.constructor | internal/cluster/raftstore.go:32-36 | starts empty |
| RaftStore.Store.FirstIndex | internal/cluster/raftstore.go:53-79 | the least stored index, 0 if none |
| RaftStore.Store.LastIndex | internal/cluster/raftstore.go:81-91 | the greatest stored index, 0 if none |
| RaftStore.Store.StoreLogs | internal/cluster/raftstore.go:110-122 | adds or replaces the entries one by one, later ones win; an error leaves exactly a prefix; other keys untouched |
| RaftStore.StoredAt | internal/cluster/raftstore.go:110-122 | an index holds the data of the last entry stored for it, or what it held |
| RaftStore.Store.DeleteRange | internal/cluster/raftstore.go:124-128 | removes exactly the indexes min..max, nothing else in the store |
| RaftStore.Store.SetStable | internal/cluster/raftstore.go:131-133 | a stable key never disturbs the log |
| RaftStore.Store.Restore | internal/cluster/fsm.go:782-849 | application keys become the snapshot's, every other key and the log stay |
| RaftStore.AppRange | internal/cluster/fsm.go:820-823 | the bytes from "/" to "0" are exactly the keys starting with "/" |
| IndexQueue.StepKeepsProjectionIff | internal/cluster/fsm.go:599-658 | one command keeps the index the projection of the store iff it parses or covers no row |
| IndexQueue.StaleRowStays | internal/cluster/fsm.go:599-658 | an unreadable record over a row |
| IndexQueue.JumpQueueIff | internal/cluster/fsm.go:504-534 | for any queue, indexing ahead of it is right in the end iff the last command that decides the row leaves the same |
| IndexQueue.OvertakenPutReturns | internal/cluster/fsm.go:504-534 | a delete that overtakes its put |
| IndexQueue.AlwaysInv | internal/cluster/fsm.go:119-178 | the queue invariant holds in every state of every interleaving of applier and worker |
| IndexQueue.CounterCounts | internal/cluster/fsm.go:119-178 | the counter is applies plus queued plus being processed; zero means nothing is under way |
| IndexQueue.IdleRow | internal/cluster/fsm.go:504-534 | at a zero counter a row is right iff no unreadable record covers it and no overtake stands against it, or both do and left no row |
| IndexQueue.IdleMeansIndexed | internal/cluster/fsm.go:504-534 | at a zero counter the index is exactly the projection of the store iff nothing stands against any row, pairs that cancel out aside |
| IndexQueue.PlainIdle | internal/cluster/fsm.go:119-178 | if the queue never was full and every command could be read, a zero counter means the index is exactly the projection of the store |
| IndexQueue.MessageRow | internal/cluster/fsm.go:539-597 | the same for the message keys of the FSM: a row iff the record is stored and readable, with that content |
| KeyKinds.ObjectKeyIff | internal/cluster/fsm.go:539-597 | an object key names one user, type and id, and they name it |
| KeyKinds.ProfileKeyIff | internal/cluster/fsm_rebuild.go:44-52 | exactly /user/{id}/profile is a profile key |
| KeyKinds.MailKeyIff | internal/cluster/fsm.go:571-584 | mail keys are the keys of the mail objects, one each |
| KeyKinds.DeferrableIff | internal/cluster/fsm.go:539-551 | deferred are exactly the mail and event objects whose key does not end in /profile |
| KeyKinds.ProfileNotDeferred | internal/cluster/fsm.go:539-551 | profile keys are never deferred |
| Users.StoreWrites | internal/cluster/fsm_rebuild.go:37-68 | a write to the store is a write of a profile iff its key is a profile key |
| Users.IndexKeepsSyncIff | internal/cluster/fsm.go:671-727 | one command keeps the table exact iff it parses, an insert finds its name free, and no empty id is deleted |
| Users.SystemDb.ReconcileUserEnabled | internal/cluster/fsm_rebuild.go:117-136 | sets enabled from every readable profile, inserts nothing, reports zero iff nothing changed |
| Users.SystemDb.ReconcileOrphanUsers | internal/cluster/fsm_rebuild.go:265-297 | deletes exactly the rows without a profile, and counts them |
| Users.SystemDb.Startup | internal/cluster/fsm_rebuild.go:111-297 | both passes together |
| Users.ReconcileExactIff | internal/cluster/fsm_rebuild.go:117-297 | from any table, reconciliation ends exact iff every profile parses and has a row |
| Users.AlwaysInv | internal/cluster/fsm.go:671-727 | invariant of every run with crashes between the three writes or inside a reconciliation |
| Users.TableExactIff | internal/cluster/fsm.go:671-727 | in every run the table holds exactly the ids with a profile, rightly enabled, whenever no entry is half applied, iff every entry is indexable where it stands in the log |
| Users.TakenNameLosesRow | internal/cluster/fsm.go:687-701 | a new user with the address of another gets no row |
| Users.TakenNameKeepsRow | internal/cluster/fsm.go:687-701 | a user with a row may take any address: the row follows the profile |
| Users.ReconcileLeaves | internal/cluster/fsm_rebuild.go:117-136 | a profile without a row, or one that does not parse, is left |
| Users.LossyExactIff | internal/cluster/fsm.go:271-306 | where the store may refuse entries, the delivered table is exact in every run iff the log holds no profile |
| Users.RefusedReplay | internal/cluster/fsm.go:271-306 | for every log and every profile in it, the run that delivers and marks everything and leaves the record without its row |
| Users.UnmarkedExact | internal/cluster/fsm.go:260-306 | where only marks are lost, and profiles parse, never share an address, and no empty id is both put and deleted: a row is off only while an entry on it is still to come, so the delivered table is exact |
| Users.LostMarksLoseRow | internal/cluster/fsm.go:260-266 | a log exact without lost marks, and a run that loses only marks and ends, delivered and marked, without a row |
| Users.WrittenRowsIff | internal/cluster/fsm.go:671-727 | in all runs with failing writes a row written after its record is right iff every profile parses, no two users are ever given the same address, and no empty id is both put and deleted |
| Users.LossyExact | internal/cluster/fsm.go:671-727 | for such logs, in every state of those runs, only rows not written since their record can be off |
| Users.AlwaysTitled | internal/cluster/fsm.go:687-696 | in every run of every log, whatever fails, a row written after its record shows the record's display name |
| Users.ShareBreaks | internal/cluster/fsm.go:687-701 | the run, everything else refused, in which a shared address leaves a written row out |
| Users.LostMarkClash | internal/cluster/fsm.go:260-266 | an address that passed from one user to the next: lost marks alone and a crash make the replay find it taken |
| Users.CrashCostsOneRow | internal/cluster/fsm_rebuild.go:111-297 | after a crash at most one row is off, that of the first entry past the watermark |
| Users.RedoRepairs | internal/cluster/fsm.go:671-727 | replaying that entry over the reconciled table makes it exact |
| BlobGc.RunInv | internal/agent/agent.go:2868-3059 | in every interleaving of writers, moving references and sweep steps, with prompt writers and no reference coming into a source already read again, each committed reference and each in-flight writer has its blob |
| BlobGc.CommitKeeps | internal/store/blobstore.go:97-132 | a commit into any source during a sweep cannot meet a deleted blob: its stamp is newer than the cutoff |
| BlobGc.PutKeeps | internal/store/blobstore.go:97-132 | a put whose stamp is older than the one it replaces does no harm within the grace period |
| BlobGc.MoveKeeps | internal/agent/agent.go:2918-2970 | a move into a source the second scan has not read leaves every doomed blob found, unread or young |
| BlobGc.DeleteKeeps | internal/store/blobstore.go:141-171 | the delete step takes no referenced or in-flight blob |
| BlobGcLimits.SafeIffPrompt | internal/agent/agent.go:2868-3059 | every run keeps every needed blob iff writers, with the age of their stamps, commit within the grace period and no reference comes into a source the second scan has read |
| BlobGcLimits.DawdleIsRun | internal/agent/agent.go:2972-3059 | the run that loses a slow writer's blob |
| BlobGcLimits.SlipIsRun | internal/agent/agent.go:2918-3059 | the run in which one move during the second scan loses a referenced blob |
| SweepLoop.PlanBlobSweep | internal/agent/agent.go:2868-2888 | candidates are the unreferenced old blobs; due are those already candidates last time, each once |
| SweepLoop.ReconfirmSweep | internal/agent/agent.go:2896-2908 | splits by the new scan, order kept, nothing lost |
| SweepLoop.OnlyInOrder | internal/agent/agent.go:2896-2908 | each half of the split keeps the order |
| SweepLoop.DeleteSweptBlobs | internal/agent/agent.go:2972-3005 | removes what the re-scan missed and is still old; nothing in a dry run or after a failed re-scan |
| SweepLoop.Sweeper.constructor | internal/agent/agent.go:2525-2590 | the loop starts with no candidates |
| SweepLoop.Sweeper.BlobGcPass | internal/agent/agent.go:2591-2637 | candidates carried to the next tick and blobs removed, for every mode change and scan error |
| SweepLoop.ThreeScansMissed | internal/agent/agent.go:2591-2637 | over any run a blob goes iff three consecutive good scans missed it under one mode and it was old each time |
| SweepLoop.SomeScanFinds | internal/agent/agent.go:2918-2970 | fewer moves than scans: some scan finds the reference |
| SweepLoop.ContinuouslyReferencedSurvives | internal/agent/agent.go:2918-3059 | a blob always referenced, its reference moving at most twice, is not deleted |
| SweepLoop.SurvivesIff | internal/agent/agent.go:2918-3059 | a blob always referenced is never deleted, over all runs and scans, iff its reference moves at most twice |
| SweepLoop.ThreeMovesDelete | internal/agent/agent.go:2918-3059 | three moves hide a reference from three scans, and the blob is deleted |
| SpoolScan.CollectSpoolBlobs | internal/agent/agent.go:2786-2802 | reports exactly the blobs listed in either pass, or nothing if a directory cannot be read |
| SpoolScan.OnePassSees | internal/agent/agent.go:2753-2785 | forward moves only: one ordered pass meets the envelope |
| SpoolScan.ScanSees | internal/agent/agent.go:2753-2785 | fewer backward moves than passes: the envelope is met, for any number of directories and passes |
| SpoolScan.ScanCompleteIff | internal/agent/agent.go:2746-2802 | with 5 directories and 2 passes: always met iff at most one backward move |
| SpoolScan.DodgerUnseen | internal/agent/agent.go:2786-2802 | an envelope with two backward moves that is not met |
| SpoolScan.EnvelopeReported | internal/agent/agent.go:2786-2802 | such an envelope's blob is in the result |
| AttWalk.DelimsExact | internal/attsplit/attsplit.go:162-196 | the delimiters are the ascending line-start occurrences, all of them |
| AttWalk.LineStep | internal/attsplit/attsplit.go:170-192 | skipping from a match to the next line passes over no delimiter |
| AttWalk.Walk.constructor | internal/attsplit/attsplit.go:153-156 | an empty walk |
| AttWalk.Walk.FindDelims | internal/attsplit/attsplit.go:162-196 | finds them all, or stops at MaxParts + 1 |
| AttWalk.Walk.Collect | internal/attsplit/attsplit.go:162-234 | the recursive walk with its shared counters appends what the specification walk yields |
| AttWalk.CollectedApart | internal/attsplit/attsplit.go:162-234 | spans are in range, increasing and disjoint |
| AttWalk.CollectedBounded | internal/attsplit/attsplit.go:158-234 | the bytes searched are bounded by nesting left times region length |
| AttParts.PartAtIff | internal/attsplit/attsplit.go:197-219 | what the loop reads between two delimiters is a part: headers from the line after, body after the first blank line and up to the next delimiter less one CRLF or LF |
| AttParts.LeafIff | internal/attsplit/attsplit.go:225-232 | a span is taken iff the disposition says attachment or there is a name, and the body has the minimum size; type and name are the header's |
| AttParts.CollectedIff | internal/attsplit/attsplit.go:162-234 | within the limits a span is collected iff it lies at the end of a chain of nested multipart regions, between neighbouring delimiters of the innermost, and its header makes it an attachment |
| AttParts.OverIff | internal/attsplit/attsplit.go:162-183 | the walk gives up iff the nesting or the number of delimiters is over its limit |
| AttSplit.SplitWork | internal/attsplit/attsplit.go:158-234 | at most MaxParts + 1 delimiters and MaxDepth times the message length, for every message |
| AttSplit.SortIsIdle | internal/attsplit/attsplit.go:104-148 | the sort in Split changes nothing |
| AttSplit.FindSpans | internal/attsplit/attsplit.go:104-117 | a span is found iff the message is multipart, its nesting and delimiters are within the limits, and the span is a part that the bytes make an attachment of the minimum size |
| AttSplit.SpansIff | internal/attsplit/attsplit.go:104-117 | the same of the specification walk, from the top headers down |
| AttSplit.Cut | internal/attsplit/attsplit.go:118-148 | pieces rebuild the input; the overlap guard never fires |
| AttSplit.Split | internal/attsplit/attsplit.go:104-148 | for every byte string and minimum size: the parts are exactly the attachments cut out of it, rebuilding gives the input, and sizes add up |
| AttSplit.Reconstruct | internal/attsplit/attsplit.go:51-61 | joins literals and parts in order |
| AttSplit.Layout | internal/attsplit/attsplit.go:74-86 | replaying the segments over skeleton and parts gives the same bytes |
| AttSplit.SpliceRebuilds | internal/attsplit/attsplit.go:51-86 | the two ways of rebuilding agree |
| AttSplit.SkeletonSize | internal/attsplit/attsplit.go:88-97 | the literal bytes |
| Privileges.RewritePrivileges | internal/caldav/privileges.go:136-235 | on every balanced stream the output is the input or a pruned, balanced form of it; on multistatus bodies exactly the tree function that drops write privileges of read-only hrefs |
| Privileges.DropNamespaceDecls | internal/caldav/privileges.go:237-246 | drops exactly the namespace declarations, order kept |
| Privileges.KeptInOrder | internal/caldav/privileges.go:237-246 | the attributes kept keep their order |
| Privileges.RunFilters | internal/caldav/privileges.go:136-235 | the one-pass loop with stack and skip depth equals the recursive filter |
| Privileges.FilterChanges | internal/caldav/privileges.go:205-235 | the changed flag is raised iff an element was lost; else the tree is kept |
| Privileges.ScopedAgrees | internal/caldav/privileges.go:150-235 | on unnested responses with text hrefs the loop's flags are the scoping of the tree |
| Privileges.FairIff | internal/caldav/privileges.go:150-235 | for bodies whose privileges are empty elements: the loop gives what the scope gives under all rules iff at every write element the raw href held by the flags is the one in scope |
| Privileges.AlikeIff | internal/caldav/privileges.go:150-235 | under given rules the two agree iff they decide alike at every write element |
| Privileges.ShapedIsAlike | internal/caldav/privileges.go:150-235 | a multistatus body meets that |
| Privileges.StaleHref | internal/caldav/privileges.go:150-235 | a privilege set after a response is judged by its href |
| Privileges.NestedResponse | internal/caldav/privileges.go:174-176 | a nested response makes the loop forget the outer href |
| Privileges.MarkupInHref | internal/caldav/privileges.go:207-213 | text of an element inside a href counts for the loop |
| Reminders.EmailReminderPass.constructor | internal/agent/reminders.go:260-274 | no term barriered yet |
| Reminders.EmailReminderPass.Run | internal/agent/reminders.go:299-356 | one pass: barrier once per term, record before mail; a key is recorded iff it was or an entry on it is for email, has a mailbox, can be read and is committed, and it is mailed iff it was new and the first such entry is sent |
| Reminders.PassedIff | internal/agent/reminders.go:318-356 | the same after any number of entries |
| Reminders.ReadUnclaimed | internal/agent/reminders.go:299-356 | a node barriered in its term never finds a claimed key unrecorded |
| Reminders.ApplyOkKeeps | internal/agent/reminders.go:325-356 | a commit inside the barriered term keeps the invariant |
| Reminders.SweepIsLate | internal/agent/agent.go:3255-3310 | a record is swept only when its key can no longer come due |
| Reminders.RunInv | internal/agent/reminders.go:299-356 | invariant of every run over leaders, terms, failed applies, failed sends, crashes and sweeps |
| Reminders.AtMostOnceIff | internal/agent/reminders.go:299-356 | at most one mail per key in every run iff writes stay in the term they were read in and records outlive every pass that could find the key due |
| Reminders.ServerTimes | internal/agent/reminders.go:134-141 | with the server's 48 and 29 hours: iff writes stay in their term and a pass ends within 19 hours |
| Reminders.ForgottenIsRun | internal/agent/agent.go:3255-3310 | the run that mails twice when a record is swept too early |
| Reminders.RelapseIsRun | internal/cluster/forward.go:38-70 | the run that mails twice when the lead is lost and regained |
| Subscriptions.Calendar.Apply | internal/agent/calsubscriptions.go:191-244 | a finished apply has done what each feed entry asks; however it stops, the calendar is the target on a set of guids and the old state elsewhere; one write per guid that needs it; deletes only after all puts |
| Subscriptions.TargetIsApplied | internal/agent/calsubscriptions.go:191-244 | the target, entry by entry of the feed: created now if new, raw form and body taken over if the raw form differs, creation time kept, other calendars' events untouched, the unlisted gone |
| Subscriptions.Calendar.PurgeEvents | internal/agent/calsubscriptions.go:318-333 | only this calendar's events go, all of them if no write fails |
| Subscriptions.FinishedSyncsIff | internal/agent/calsubscriptions.go:191-244 | from any state a finished apply holds exactly the feed iff no other calendar has one of its guids |
| Subscriptions.NothingLost | internal/agent/calsubscriptions.go:191-244 | at every failure point no listed event is missing and other calendars are untouched |
| Subscriptions.RetryResumes | internal/agent/calsubscriptions.go:191-244 | what a stopped apply did need not be done again |
| Subscriptions.SecondApplyIdle | internal/agent/calsubscriptions.go:191-244 | a second apply writes nothing |
| Subscriptions.RunSafe | internal/agent/calsubscriptions.go:157-187 | if versions are not reused, "not modified" always means the calendar holds the feed |
| Subscriptions.SafeIffFresh | internal/agent/calsubscriptions.go:157-187 | that holds of all feeds and runs iff versions are not reused |
| Subscriptions.RevertedFeed | internal/agent/calsubscriptions.go:157-187 | the run where a reverted feed hides a half-applied one |
| ConfigDiff.Changes.DiffValue | internal/config/diff.go:203-232 | inserts exactly the keys the recursive comparison reports |
| ConfigDiff.ReportedIff | internal/config/diff.go:203-232 | a key is reported iff some leaf known by it reads differently through nil-safe accessors |
| ConfigDiff.KeyIsDotted | internal/config/diff.go:196-216 | a leaf's key is the field names on the way to it, outermost first, joined by dots; repeated blocks add none |
| ConfigDiff.DottedPieces | internal/config/diff.go:196-201 | cutting a key at its dots gives the names back |
| ConfigDiff.ReadIs | internal/config/diff.go:234-254 | a leaf reads as stored, or as the zero of its type where a block is missing |
| ConfigDiff.ReportedIffChanged | internal/config/diff.go:203-254 | a key is reported iff some leaf of those names is stored differently, a missing one counting as zero |
| ConfigDiff.BeforeIff | internal/config/diff.go:190-192 | the sort order: the first differing character decides, or the shorter goes first |
| ConfigDiff.QuietIff | internal/config/diff.go:203-254 | nothing is reported iff the configs agree after filling in missing blocks and dropping trailing empty repeated ones |
| ConfigDiff.EmptyBlockUnseen | internal/config/diff.go:217-223 | an appended empty block is a change that is not reported |
| ConfigDiff.Classify | internal/config/diff.go:175-193 | each changed key in exactly the list of its class, sorted; unknown keys restart and secret |
| ConfigDiff.ListsUnique | internal/config/diff.go:175-193 | the lists do not depend on map iteration order |
| ConfigDiff.Diff | internal/config/diff.go:165-194 | a key is listed iff a leaf of those dotted names is stored differently; in its class's sorted list with its secrecy, and an unknown key as restart and secret |
| Reload.Agent.constructor | internal/agent/reload.go:49-51 | holders built from the baseline's config carry its values |
| Reload.Agent.RegisterSmtpBackend | internal/agent/agent.go:751-766 | the backend gets the networks that the baseline's leaf parses to and is listed, or they do not parse and nothing changes |
| Reload.Agent.RegisterClamAv | internal/agent/agent.go:771-788 | the processor accepts on failure iff the baseline's leaf is "accept", and is listed |
| Reload.Agent.DropUnheld | internal/agent/reload.go:239-251 | keeps exactly the keys with a holder, in order |
| Reload.Agent.NewBaseline | internal/agent/reload.go:218-232 | reads as the new config at the held hot leaves and as the old one elsewhere |
| Reload.Agent.Reload | internal/agent/reload.go:96-234 | a failed reload changes nothing; a good one moves all held hot leaves and no other, and every consumer has what the file's leaves say: level by name, thresholds in range or 0.5 and 0.9 with high raised to tag, networks as parsed, accept iff "accept"; the lists are right, and without a widening warning no address is newly trusted |
| Reload.DerivedAre | internal/agent/reload.go:253-276 | each prepared value, on the leaf it is read from |
| Reload.GoodIff | internal/agent/reload.go:254-276 | a config passes iff the checks do, its networks parse and its thresholds lie between 0 and 1 |
| HotPlaces.WfIsMet | internal/config/diff.go:52-58 | the five hot keys in their nested blocks meet what a reload asks of the schema |
| Reload.PairValidIff | internal/agent/reload.go:254-276 | prepare refuses the thresholds iff the tag threshold rounds to zero |
| Reload.LeavesAfter | internal/agent/reload.go:117-234 | after any run a held hot leaf is the last good file's, any other leaf is startup's |
| Reload.ReportAfter | internal/agent/reload.go:203-232 | in any run a key not applied live is reported iff the file differs there from startup; a live one iff it differs from the last good file |
| Reload.LiveAfter | internal/agent/reload.go:166-200 | after any run the live values are those of the last good file |
| Reload.AgainIsQuiet | internal/agent/reload.go:218-232 | the same file again applies nothing |
| TrustedNets.TrustWidened | internal/agent/reload.go:316-332 | false means no address is newly trusted; true is a false alarm exactly when some new network is uncovered and all are tiled |
| TrustedNets.ContainsIff | internal/agent/reload.go:316-332 | which addresses a network holds, bit by bit, IPv4, IPv6 and v4-mapped |
| TrustedNets.CoveredIffInside | internal/agent/reload.go:316-332 | for plain networks the prefix test is set inclusion |
| TrustedNets.KeepsTrust | internal/agent/reload.go:316-332 | covered lists trust nothing new, both address widths and v4-mapped forms |
| TrustedNets.TiledIff | internal/agent/reload.go:316-332 | every address of a block is trusted iff the old networks tile it, both widths |
| TrustedNets.NewTrustIff | internal/agent/reload.go:316-332 | some address is newly trusted iff some new network is not tiled |
| TrustedNets.ReportRightIff | internal/agent/reload.go:316-332 | the report is right iff all new networks are covered or some is not tiled |
| TrustedNets.HalvesCountAsWidened | internal/agent/reload.go:316-332 | joining two halves is reported although nothing new is trusted |
| TrustedNets.EdgeEscapesPrefixTest | internal/agent/reload.go:316-332 | the one prefix length where inclusion escapes the test |
| AuthLimit.Limiter.constructor | internal/authlimit/authlimit.go:39-45 | an empty limiter |
| AuthLimit.Limiter.Blocked | internal/authlimit/authlimit.go:57-75 | answers by the live count and changes no live entry |
| AuthLimit.Limiter.Record | internal/authlimit/authlimit.go:77-105 | counts, restarts an expired window, sweeps every 1024th time |
| AuthLimit.Limiter.Fail | internal/authlimit/authlimit.go:117-128 | counts against the IP and the pair, and reports whether the IP is now blocked |
| AuthLimit.Limiter.Succeed | internal/authlimit/authlimit.go:130-155 | takes the pair's count off the IP |
| AuthLimit.PairKeysApart | internal/authlimit/authlimit.go:110-112 | pair keys collide with no other pair and no IP when IPs hold no NUL |
| AuthLimit.InWindow | internal/authlimit/authlimit.go:57-155 | for every sequence inside one window each counter is the number of unforgiven failures |
| AuthLimit.BlockedIff | internal/authlimit/authlimit.go:57-155 | blocked iff unforgiven failures reach the limit |
| AuthLimit.IpCounterIsSum | internal/authlimit/authlimit.go:117-155 | the IP counter is the sum of its live pair counters |
| AuthWindows.BlockedHasFailed | internal/authlimit/authlimit.go:57-155 | over every history, across windows and successes, a blocked IP has failed at least max times within the last window |
| AuthWindows.BlockedIffFull | internal/authlimit/authlimit.go:57-128 | over every history of failures an IP is blocked iff its current window is open and holds max failures since the one that opened it |
| AuthWindows.StaleForgivesNothing | internal/authlimit/authlimit.go:130-155 | a success whose pair has not failed within the last window changes nothing about who is blocked |
| MergeBusy.MergePeriods | internal/caldav/schedule_http.go:931-954 | the loops compute the specified merge; exact for ranges up to 2^63 |
| MergeBusy.MergedExact | internal/caldav/schedule_http.go:931-954 | covers exactly the clipped instants, sorted, non-empty, strictly separated |
| MergeBusy.WrapLosesPeriod | internal/caldav/schedule_http.go:939-944 | for every wider range, an input that loses a period |
| MergeBusy.MergeExactIff | internal/caldav/schedule_http.go:931-954 | right for all inputs iff the range spans at most 2^63 |
| MergeBusy.ServerRangesExact | internal/caldav/schedule_http.go:820-826 | exact and canonical for every range the server passes |
| MergeBusy.CanonicalUnique | internal/caldav/schedule_http.go:945-953 | a canonical list is determined by what it covers |
| MergeBusy.MergeCanonical | internal/caldav/schedule_http.go:931-954 | equal clipped coverage gives equal lists |

## Left out

- HTTP, SMTP, IMAP and POP3 handling, TLS, gossip and the Raft transport: plumbing over libraries.
- Spam scoring, DKIM, DNS, passwords and TOTP.
- Composite FSM commands (mailboxes, queue, ACLs, tickets): only PUT and DELETE entries are modelled.
- Rebuilding the derived indexes after a restore; it inserts and updates rows but does not delete stale ones.
- Search index, mail previews and blob synchronisation of the FSM.
- Several nodes sweeping one blob store: the source names the node-local spool as a known gap.
- Browser reminders, and which events are due: the due list is an input of the pass.
- The HTTP capture, XML decoding and encoding and their errors around the privilege filter: it works on tokens.
- MIME header parsing: the parsed fields of a header are a parameter of the walk; what follows from them is not.
- Log lines, shadowed-key warnings and redaction in the reload; the key tables of the config are a parameter.
- Refresh intervals and error texts of subscriptions.
- AuthLimit.InWindow: one window; across windows BlockedHasFailed bounds a block from below and BlockedIffFull is exact without successes. The bound on a burst that the source mentions is neither stated nor claimed: it depends on how much the pair counters carry over from earlier windows.
- Users.TableExactIff: runs in which the store and watermark writes succeed; LossyExactIff and UnmarkedExact have the others. SQLite statements fail only for the schema's sake.
- Users.UnmarkedExact: one way; logs that share an address are exact or not depending on the order of their entries.
- Privileges.FairIff: bodies whose privileges are empty elements, as section 5.4 of RFC 3744 has them; AlikeIff has the others, rules given.
- IndexQueue.AlwaysInv: SQLite statements do not fail; a crash and the rebuild after it are not modelled.
- BlobGcLimits.SafeIffPrompt: a source is read in one step; that the spool, one of the sources, is read completely is SpoolScan's result. Error paths of a touch that lacks permission are not modelled.
- MergeBusy.MergePeriods: the sort is an insertion sort; Go leaves the order open for a comparator that wraps.
- Subscriptions.Calendar.Apply: takes the guids of a feed as distinct; the parser keeps one event per UID and the guid is a 128-bit hash.
- Privileges.RewritePrivileges: unbalanced token streams are covered by the loop's specification function only.
- Reload.Agent.Reload: the config is any schema in which the five hot keys are plain leaves with unique names.
- Reminders.EmailReminderPass.Run: the number of mails sent is the length of the returned list.
