# Verified models of the LaTeX renderer's protocols

Dafny models of the parts of this repository whose correctness depends on more than one
function: crash-safe publication of an output directory, the TeX Live snapshot mirror,
lease-fenced publication of rendered stages, and the small state machines that limit, sign
in and spend tickets. `dafny verify dfyconfig.toml` checks everything.

## What is modelled

**Output directories** (`artifact_store.dfy`, `claim_lock.dfy`, `artifact_download.dfy`).
`OutputStore` is the disk as `artifact-transaction.ts` sees it, changed one file operation
at a time. Every operation first asks `fate`, an arbitrary function, whether it happens,
fails, or is never reached because the process was killed; so each contract speaks about an
interruption before any operation, also inside `recover`. `Trusted` is the set of disks
recovery accepts, `Settled` the set the protocol has promised: the previous one until the
commit marker is on disk, the new one from then on. Lemmas over histories of publications,
recoveries, deaths and edits of the output, also while a transaction is pending or being
built, say that the last committed set is never lost; `PerformAll` runs any calls and shows
that they are such a history. `ClaimLock` proves, for any number of callers and processes
that die at any time, that the claim directories give mutual exclusion and that the file
operations of two callers never interleave, which is what lets the histories be sequences of
calls. `ArtifactDownload` says what the transaction's new set contains.

**TeX Live mirror** (`retention.dfy`, `mirror_state.dfy`, `mirror.dfy`, `mirror_runs.dfy`,
`dependency_closure.dfy`, `closure_theorems.dfy`, `closure_architectures.dfy`,
`closure_example.dfy`, `archive_paths.dfy`, `capacity.dfy`). `Mirror.Store` holds
`state.json`, the snapshot directories, the trash, the lease files and `latest.json`; each
management-lock section is a method that may be cut short before every write, rename and
unlink. `Consistent` is what all of them keep. `MirrorRuns` strings sections together in any
order and proves what holds over whole runs.

**Staged publication** (`staged_publication.dfy`, `job_outcomes.dfy`, `job_progress.dfy`,
`failure_records.dfy`). A step relation over one job row with its stage checkpoint, its
artifact rows and the directories below `outputs/`, with any number of workers and
recoveries, cancellation, SVG retries, expiry at any moment and a stall or death between any
two steps. The row changes only under the WHERE clauses of
`packages/database/src/repositories` (`worker.ts:65-101` and `:289-314` raise the lease
generation, `output-stages.ts:28-222` and `artifacts.ts:168-189` guard the stages and move
`svg/` rows) and with the triggers of `schema.ts:495-517`. `JobOutcomes` and `JobProgress`
say what becomes of the job; `FailureRecords` adds the record of a failure before any PDF,
which publishes under another kind of number.

**Limits, logins, tickets** (`limiters.dfy`, `oidc_flows.dfy`, `upload_nonces.dfy`).
`FixedWindow` proves the span bounds once, and that they are reached; the limiters, the
login throttle and the OpenID Connect client keep a ghost history that connects their tables
to it.

`text.dfy` and `wrappers.dfy` hold the shared vocabulary.

## Hypotheses

- Directory identities, `gc-*` names, claim names, snapshot ids and random states are fresh.
  Rename, mkdir, rmdir and readdir are atomic. Death of a process is modelled, power loss is
  not.
- Nobody edits the output between the comparison at `artifact-transaction.ts:380` and the
  rename at `:390`, nor while `recover` runs, between its checks (`:262-302`) and its
  renames (`:295`, `:308`). Every other edit is covered;
  `ArtifactStore.OutputStore.PublishArtifactSet` shows that one during a build is as good as
  one made after the call.
- Hashes and HMACs are injective, so tokens, addresses and states stand for themselves.
- The clock of a sync does not run backwards between a publication and a later refresh
  (`MirrorRuns.Sound`); other sections may use an older time. The limiters, the throttle and
  the login client see non-decreasing times; login attempts follow one another.
- A transaction of the database is one step, and `transaction`
  (`packages/database/src/index.ts:103-118`) does not throw after its COMMIT, which
  `notifyWorkerAfterCommit` (`deploy/scripts/worker-demand.mjs:73-96`) guarantees by
  catching everything. `StagedPublication.ErrorAfterCommitLosesGeneration` shows why it
  must.
- JavaScript prints an integer below 10^21 - 65536 in digits and everything above with an
  exponent, because it rounds to 10^21 or more (`ArtifactDownload.JavaScript`).
- The mirror's configuration is fixed, and a record's year is the year in its id.

## What the proofs found

- `_sync_attempt` refreshes an unchanged snapshot with the time the attempt started. If that
  is earlier than the publication, the file it saves is rejected by every later
  `load_state`. `Mirror.Store.FinishUnchanged` gives the exact condition,
  `Mirror.ClockRunsBack` the two sections that get there.
- `dependency_closure` remembers names without the architecture they were reached under.
  With one architecture it returns the least closed set; with two it can lose a package that
  both need (`ClosureExample.RunExample`). It loses nothing, in whatever order the queue is
  served, if no package with a conditional dependency is needed under two architectures or
  under one and none in particular (`ClosureArchitectures.NoConflictLosesNothing`). That
  condition is on the database and the roots. It is exact, again for every order, where
  conditional dependencies are private to packages that are needed for an architecture only
  (`CompleteExactlyWithoutConflict`). Where such a package is needed without one as well,
  the order decides (`ClosureExample.OrderDecides`), so completeness is then no property of
  database and roots alone. Running the walk once per architecture and taking the union is
  always complete (`UnionIsClosed`).
- A recorded preview page of 22 digits makes the next download remove
  `previews/page-1e+21.png`, a name no download generates
  (`ArtifactDownload.HugePageReachesUserFile`). Only generated files are removed exactly
  when every recorded page is below 10^21 - 65536
  (`ArtifactDownload.OnlyGeneratedAreRemoved`).
- `estimate_peak` does not count indexed files that fail their checksum and are downloaded
  again. The limits hold exactly when everything fits that is neither in the staging
  directory already nor indexed and intact (`Capacity.Fill`); with the default configuration
  one damaged file of 5.5 GiB takes an accepted sync above the hard limit
  (`Capacity.DamagedSourcesExceedLimits`).
- `package_aliases` rejects a database exactly when one selected package is called like the
  revisioned archive of another (`ArchivePaths.PackageAliases`), for example a package "a"
  at revision 1 beside a package "a.r1" (`ArchivePaths.RejectedForItsNames`).
- A sync that dies or fails between making its staging directory and writing
  `.operation.json` stops every later collection outside a running sync, hence also the
  first step of every later `sync`, until somebody removes the directory
  (`Mirror.DeathStopsCollections`). `Mirror.Store.RecoverSection` has the exact condition,
  and without a death it never arises for want of a marker (`MirrorRuns.Operate`).
- `recordFailure` publishes under the bare lease number, which is also the number of a PDF
  directory of half that lease. A worker of that lease that stalls after its rename, and
  wakes up after the directory was pruned and the later lease failed, deletes the recorded
  files (`FailureRecords.RecordedFailureCanBeLost`). They stay in every run exactly when, at
  the record, no worker and no recovery is about to remove that directory
  (`FailureRecords.RecordKeptExactlyWhen`).

## Model

| member | source | states |
|---|---|---|
| `ArtifactStore.OutputStore.Recover` | packages/client-core/src/artifact-transaction.ts:206-312 | On a disk left by the protocol recovery is never refused, loses nothing wherever it is interrupted, and on completion leaves exactly the promised set and no transaction or garbage; on any other disk it never completes and renames nothing; only journaled directories ever move. |
| `ArtifactStore.OutputStore.Restore` | packages/client-core/src/artifact-transaction.ts:289-310 | The two renames of a roll-back keep the promised set at every point and end with it at the output path. |
| `ArtifactStore.OutputStore.SweepGarbage` | packages/client-core/src/artifact-transaction.ts:211-213 | Leftover `gc-*` directories are all removed unless interrupted. |
| `ArtifactStore.OutputStore.RemoveGarbage` | packages/client-core/src/artifact-transaction.ts:191-194 | An interrupted removal leaves the garbage directory to be found again. |
| `ArtifactStore.OutputStore.DiscardTransaction` | packages/client-core/src/artifact-transaction.ts:196-204 | One rename takes the whole transaction away: it is either untouched or gone. |
| `ArtifactStore.OutputStore.WriteJournal` | packages/client-core/src/artifact-transaction.ts:165-176 | The journal appears whole or not at all, after its second operation, and nothing else of the transaction changes. |
| `ArtifactStore.OutputStore.WriteMarker` | packages/client-core/src/artifact-transaction.ts:396-396 | The commit marker appears whole or not at all, after its second operation; a failing directory sync leaves it visible. |
| `ArtifactStore.OutputStore.PrepareStage` | packages/client-core/src/artifact-transaction.ts:353-375 | On success the stage is a fresh directory with the contents of the previous set and the journal names both identities; at every interruption the disk stays recoverable to the unchanged output. |
| `ArtifactStore.OutputStore.BuildStage` | packages/client-core/src/artifact-transaction.ts:376-377 | The build changes the contents of the stage only. |
| `ArtifactStore.OutputStore.StageSet` | packages/client-core/src/artifact-transaction.ts:347-389 | Success means an unedited output and a stage holding what the build makes of it; any edit of the output is detected. |
| `ArtifactStore.OutputStore.Switch` | packages/client-core/src/artifact-transaction.ts:390-396 | Until the marker exists the previous set is whole at output or backup and is what recovery restores; once it exists the staged set is at the output. |
| `ArtifactStore.OutputStore.RollBack` | packages/client-core/src/artifact-transaction.ts:407-415 | After a failure the marker is taken back first; the result is the previous set, or a disk from which recovery leads there. |
| `ArtifactStore.OutputStore.Finish` | packages/client-core/src/artifact-transaction.ts:390-415 | From a staged set: it is published, or the previous one is promised and, if at most one operation failed, back at the output without a trace. |
| `ArtifactStore.OutputStore.RestoreAndDiscard` | packages/client-core/src/artifact-transaction.ts:289-311 | The roll-back leaves the promised set at the output and no transaction, or a disk that leads there. |
| `ArtifactStore.OutputStore.CopyFiles` | packages/client-core/src/artifact-transaction.ts:366-375 | On success the stage holds every file of the previous set. |
| `ArtifactStore.OutputStore.Attempt` | packages/client-core/src/artifact-transaction.ts:343-419 | A transaction that starts on a clean disk publishes exactly what was built or keeps the previous set; a detected edit is never published over; if at most one file operation fails, a failed transaction leaves the previous set at the output and no trace. |
| `ArtifactStore.OutputStore.PublishArtifactSet` | packages/client-core/src/artifact-transaction.ts:318-419 | One call moves the promise to the new set exactly when its marker is written and otherwise keeps it; undisturbed it succeeds exactly when the build does; with an edit during the build nothing is published and the edited output stays; a disk recovery refuses is left alone; with at most one failing operation on a disk without leftovers it saves the set or takes everything back, and whatever happened before, without further faults it succeeds. |
| `ArtifactStore.HistoryKeepsLastCommitted` | packages/client-core/src/artifact-transaction.ts:206-415 | Over every history of publications, failures, deaths, recoveries and edits, also edits of a pending transaction, the promised set is the last committed one; an edit counts unless the previous set is in the backup. |
| `ArtifactStore.VisibleOutputIsLastCommitted` | packages/client-core/src/artifact-transaction.ts:314-317 | After a completed recovery or a saved publication the output path holds the last committed set. |
| `ArtifactStore.NeverRefused` | packages/client-core/src/artifact-transaction.ts:246-302 | As long as no pending transaction is edited recovery is possible after every history. |
| `ArtifactStore.ForeignOutputIsRefused` | packages/client-core/src/artifact-transaction.ts:297-302 | A directory that replaced the output during a pending transaction makes recovery refuse. |
| `ArtifactStore.DeletedOutput` | packages/client-core/src/artifact-transaction.ts:279-307 | After somebody deleted the output recovery goes ahead exactly when nothing was committed and the previous set is still there (or there was none), and then restores it. |
| `ArtifactStore.PerformAll` | packages/client-core/src/artifact-transaction.ts:318-419 | Any sequence of real calls, cut short anywhere, and of edits before, between and during them amounts to a history of their events, so the set it promises is the last committed one. |
| `ArtifactStore.Perform` | packages/client-core/src/artifact-transaction.ts:376-389 | One call is one event, or, if the output was edited during its build, an unpublished one followed by that edit. |
| `ClaimLock.MutualExclusion` | packages/client-core/src/artifact-transaction.ts:69-112 | In every run of any number of callers and dying processes two live callers never both hold the output. |
| `ClaimLock.SessionsNeverInterleave` | packages/client-core/src/artifact-transaction.ts:342-418 | Between two file operations of one holder nobody else operates. |
| `ClaimLock.RunKeepsInv` | packages/client-core/src/artifact-transaction.ts:64-112 | Claims of running callers stay on disk, and of two callers past their listing one still has the other ahead of it. |
| `ClaimLock.StepKeepsClaims` | packages/client-core/src/artifact-transaction.ts:84-105 | Only claims whose processes are gone for good are removed. |
| `ClaimLock.StepKeepsOrder` | packages/client-core/src/artifact-transaction.ts:70-77 | Claiming before listing keeps every two callers ordered. |
| `ClaimLock.OperateKeepsLog` | packages/client-core/src/artifact-transaction.ts:345-417 | An operation of the holder continues its own uninterrupted stretch. |
| `ClaimLock.ReleaseFindsClaim` | packages/client-core/src/artifact-transaction.ts:107-109 | A running caller's own claim is there to be removed. |
| `ClaimLock.ReleaseRemovesOwnClaim` | packages/client-core/src/artifact-transaction.ts:107-109 | Giving the lock back removes the caller's claim and nobody else's. |
| `ClaimLock.ClaimsAreOpen` | packages/client-core/src/artifact-transaction.ts:66-111 | A claim on disk belongs to a running caller or to one whose process died under it. |
| `ClaimLock.ReleasedLockIsFree` | packages/client-core/src/artifact-transaction.ts:64-112 | Once every other caller has given the lock back or its process is gone, a newcomer gets it by its own steps, also while the processes of those that released it live on. |
| `ClaimLock.BusyMeansAlive` | packages/client-core/src/artifact-transaction.ts:87-103 | A caller is turned away for a claim only if the process of that claim exists. |
| `ClaimLock.VanishedClaimIsSkipped` | packages/client-core/src/artifact-transaction.ts:82-83 | A claim that vanished after the listing is passed over. |
| `ClaimLock.EveryCallerMoves` | packages/client-core/src/artifact-transaction.ts:64-112 | Every running caller can take the step its place in the protocol calls for. |
| `ClaimLock.FirstCallerHolds` | packages/client-core/src/artifact-transaction.ts:69-107 | A process starts and its first caller takes the lock. |
| `ClaimLock.CallerAmongDeadClaimsEnters` | packages/client-core/src/artifact-transaction.ts:75-107 | A caller whose rivals' processes no longer exist clears their claims and gets the lock. |
| `ArtifactDownload.StageArtifacts` | packages/client-core/src/index.ts:654-780 | The staged set is the previous tree without what the previous download generated, under the new artifacts and the new job.json; it fails exactly for the jobs described by `Accepts`. |
| `ArtifactDownload.DownloadArtifacts` | packages/client-core/src/index.ts:596-652 | A successful download leaves exactly that set at the output path; a failed or interrupted one keeps the promised previous set. |
| `ArtifactDownload.DownloadNamed` | packages/client-core/src/index.ts:840-861 | Exactly the advertised artifacts of these names are saved, or the download fails. |
| `ArtifactDownload.DownloadPreviews` | packages/client-core/src/index.ts:782-838 | At most 100 previews with pages 1 to 100, each saved under its unpadded name, no two under the same one. |
| `ArtifactDownload.DownloadSvg` | packages/client-core/src/index.ts:694-725 | All SVG artifacts are saved under safe paths, or the download fails. |
| `ArtifactDownload.PruneGeneratedArtifacts` | packages/client-core/src/artifact-cleanup.ts:13-78 | Exactly the removable paths of the previous job.json that are not kept disappear. |
| `ArtifactDownload.EachPath` | packages/client-core/src/index.ts:748-759 | Path by path: new artifacts win, generated leftovers go, every other file keeps its contents. |
| `ArtifactDownload.EachArtifact` | packages/client-core/src/index.ts:661-747 | No part of a download overwrites another: every wanted artifact and every preview arrives with its own contents. |
| `ArtifactDownload.NothingElse` | packages/client-core/src/index.ts:661-747 | Whatever is written is a wanted artifact under its own path or a preview under its canonical name. |
| `ArtifactDownload.PagesApart` | packages/client-core/src/index.ts:799-816 | Two previews get one file name exactly when they are the same page, however padded. |
| `ArtifactDownload.PreviewsOkMeans` | packages/client-core/src/index.ts:790-825 | The previews are accepted exactly when all are pages from 1 to 100 that arrive and no page comes twice. |
| `ArtifactDownload.PreviewName` | packages/client-core/src/index.ts:799-816 | A page is saved under its number without padding. |
| `ArtifactDownload.WrittenAreGenerated` | packages/client-core/src/artifact-cleanup.ts:80-94 | Everything a download writes is a generated path and not job.json. |
| `ArtifactDownload.GeneratedPathMeans` | packages/client-core/src/artifact-cleanup.ts:80-94 | The generated paths: three files, four below svg/, numbered pages and six-digit objects. |
| `ArtifactDownload.RemovableMeans` | packages/client-core/src/artifact-cleanup.ts:44-57 | A recorded generated path allows itself to be removed and the unpadded name of the same page, nothing else. |
| `ArtifactDownload.NothingLeftBehind` | packages/client-core/src/artifact-cleanup.ts:42-77 | Of one download's files exactly those survive the next that it writes again. |
| `ArtifactDownload.OnlyGeneratedAreRemoved` | packages/client-core/src/artifact-cleanup.ts:44-57 | Only generated paths are ever removed, exactly when every recorded page is below 10^21 - 65536. |
| `ArtifactDownload.HugePageReachesUserFile` | packages/client-core/src/artifact-cleanup.ts:51-55 | A recorded page of 22 digits, printed as 1e+21, reaches a file that is not a generated path. |
| `Retention.DeleteCandidates` | deploy/texlive-mirror/texlive_mirror.py:1445-1470 | The candidates are the unprotected snapshots in excess, oldest first, followed under pressure by the other unprotected ones. |
| `Retention.NormalThenExtra` | deploy/texlive-mirror/texlive_mirror.py:1461-1470 | Candidate order is oldest first over all unprotected snapshots. |
| `Retention.RemoveOldest` | deploy/texlive-mirror/texlive_mirror.py:1586-1634 | Deleting the oldest unprotected snapshot brings no other one into excess. |
| `Retention.Decide` | deploy/texlive-mirror/texlive_mirror.py:1596-1607 | The loop stops exactly when nothing is in excess and there is no pressure, the target is met, or nothing unprotected is left; otherwise it takes the oldest unprotected snapshot. |
| `Retention.DeletionLoop` | deploy/texlive-mirror/texlive_mirror.py:1580-1634 | The loop ends; without pressure it deletes exactly the initial excess; under pressure it goes on oldest first and stops only on target or with nothing unprotected left, and nothing beyond the excess goes once on target. |
| `Retention.DeleteNext` | deploy/texlive-mirror/texlive_mirror.py:1591-1634 | A round deletes the oldest unprotected snapshot, beyond the initial excess only under pressure and off target, or finds nothing to delete. |
| `Retention.DeletedNotNewer` | deploy/texlive-mirror/texlive_mirror.py:1461-1470 | No deleted snapshot is newer than a surviving unprotected one. |
| `Retention.PressureMeans` | deploy/texlive-mirror/texlive_mirror.py:1580-1604 | When pressure starts and when it is off. |
| `Retention.Survivors` | deploy/texlive-mirror/texlive_mirror.py:1629-1630 | What is left after the deletions is exactly the listed snapshots not deleted. |
| `MirrorState.ReconcileRestores` | deploy/texlive-mirror/texlive_mirror.py:1381-1442 | From every consistent pair of stores reconciliation yields a loadable state whose records are exactly the directories, all published; adopted records say what the manifest says, the others change in their status only; an accepted latest of the active year is kept, and a missing one becomes the newest of the year. |
| `MirrorState.LoadOkMeans` | deploy/texlive-mirror/texlive_mirror.py:610-649 | What the file must satisfy, written out on its fields. |
| `MirrorState.AdoptableMeans` | deploy/texlive-mirror/texlive_mirror.py:1390-1413 | Only an intact directory of its own name and year is adopted. |
| `MirrorState.ReconcileTwice` | deploy/texlive-mirror/texlive_mirror.py:1416-1441 | Reconciliation is idempotent. |
| `MirrorState.MarkedConsistent` | deploy/texlive-mirror/texlive_mirror.py:1616-1626 | Marking a deletable snapshot, with or without the rename that follows, leaves consistent stores. |
| `MirrorState.DroppedConsistent` | deploy/texlive-mirror/texlive_mirror.py:1627-1631 | Forgetting the moved snapshot leaves consistent stores. |
| `MirrorState.RenameBeforeMarkingIsUnsafe` | deploy/texlive-mirror/texlive_mirror.py:1616-1626 | The opposite order would leave a record without its directory. |
| `MirrorState.LiveIdsShrink` | deploy/texlive-mirror/texlive_mirror.py:751-755 | Time alone never adds a reserved snapshot. |
| `Mirror.SortPublished` | deploy/texlive-mirror/texlive_mirror.py:1449-1454 | The published snapshots, each once, newest first. |
| `Mirror.Store.ActiveReservations` | deploy/texlive-mirror/texlive_mirror.py:706-755 | The unexpired leases; only expired files are removed; an error means an unsafe lease or one from the future. |
| `Mirror.Store.AdoptOrphans` | deploy/texlive-mirror/texlive_mirror.py:1384-1415 | Exactly the unrecorded, verified directories are taken over. |
| `Mirror.Store.SettleDeletions` | deploy/texlive-mirror/texlive_mirror.py:1416-1425 | Interrupted deletions are finished or undone; the error names a published record without its directory. |
| `Mirror.Store.ChooseLatest` | deploy/texlive-mirror/texlive_mirror.py:1429-1441 | A missing active latest becomes the newest active snapshot; a valid one is kept. |
| `Mirror.Store.ReconcileState` | deploy/texlive-mirror/texlive_mirror.py:1381-1442 | The method computes `Reconciles`, and fails only for an unverified orphan or a missing directory. |
| `Mirror.Store.LoadState` | deploy/texlive-mirror/texlive_mirror.py:610-649 | The file is accepted exactly when every record, protection and the latest pointer are valid. |
| `Mirror.Store.RecordsValid` | deploy/texlive-mirror/texlive_mirror.py:628-629 | Exactly when every record passes `validate_snapshot_record`. |
| `Mirror.Store.ProtectionsValid` | deploy/texlive-mirror/texlive_mirror.py:630-636 | Exactly when every protection expires after its creation and names a published snapshot. |
| `Mirror.Store.RecoverSection` | deploy/texlive-mirror/texlive_mirror.py:1553-1577 | On consistent stores the first collection section records the reconciled state; unless it dies it fails exactly when no sync runs and a staging directory stops `recover_staging`, and then records nothing. |
| `Mirror.Store.RecoverStaging` | deploy/texlive-mirror/texlive_mirror.py:1493-1526 | Only what finished syncs left goes to the trash, all of it unless a directory without marker, with an unsafe name or a taken trash name stops the walk. |
| `Mirror.SyncNamesAreSafe` | deploy/texlive-mirror/texlive_mirror.py:1870-1870 | The names syncs give their directories are accepted. |
| `Mirror.SafeNamesAreFileNames` | deploy/texlive-mirror/texlive_mirror.py:1519-1520 | An accepted name is a single file name, not hidden and at most 200 characters long. |
| `Mirror.Store.OpenStaging` | deploy/texlive-mirror/texlive_mirror.py:1871-1879 | The directory comes before its marker; a death in between leaves it without. |
| `Mirror.Store.CloseStaging` | deploy/texlive-mirror/texlive_mirror.py:2155-2156 | Removal ends with the directory gone; a death may leave it without its marker. |
| `Mirror.DeathStopsCollections` | deploy/texlive-mirror/texlive_mirror.py:1509-1513 | A death between directory and marker makes every later collection outside a sync fail, at any times. |
| `Mirror.Store.ProtectedIds` | deploy/texlive-mirror/texlive_mirror.py:1320-1345 | Exactly the snapshots under a live lease, an unexpired protection or the active latest. |
| `Mirror.Store.ChooseCandidate` | deploy/texlive-mirror/texlive_mirror.py:1596-1607 | The chosen snapshot is unprotected, none unprotected is older, and unless there is pressure off target it is past the keep period or outside the newest generations; nothing overdue is passed over, and under pressure off target nothing unprotected. |
| `Mirror.Store.DeleteSnapshot` | deploy/texlive-mirror/texlive_mirror.py:1607-1631 | Mark, rename, forget: consistent stores after a death at any point, and at most this directory moves; without a death it completes unless the trash name is taken. |
| `Mirror.Store.MoveAndForget` | deploy/texlive-mirror/texlive_mirror.py:1619-1631 | After the mark: rename, pointer, record, in this order, with consistent stores after a death anywhere. |
| `Mirror.Store.Survey` | deploy/texlive-mirror/texlive_mirror.py:1594-1596 | The state it works on is the reconciled one, and what it keeps is exactly what is protected then. |
| `Mirror.Store.Pick` | deploy/texlive-mirror/texlive_mirror.py:1594-1607 | It picks the oldest unprotected snapshot, in excess unless there is pressure off target; picking none means nothing overdue is unprotected, and under pressure off target nothing at all. |
| `Mirror.Store.CollectOne` | deploy/texlive-mirror/texlive_mirror.py:1591-1631 | One deletion section moves at most one snapshot, unprotected and the oldest such, in excess unless there is pressure off target; it stops only with nothing overdue left, under pressure with nothing unprotected; records of the others are untouched; without a death it fails only for a lease from the future or a taken trash name. |
| `Mirror.NotListedNotOverdue` | deploy/texlive-mirror/texlive_mirror.py:1449-1470 | What the listing does not put in excess is neither past the keep period nor behind enough newer snapshots. |
| `Mirror.Store.ResolveDate` | deploy/texlive-mirror/texlive_mirror.py:782-803 | A date resolves to the latest snapshot if that carries it, else to the only one that does, else to none. |
| `Mirror.Store.Acquire` | deploy/texlive-mirror/texlive_mirror.py:831-869 | Repeating an acquisition returns the same unchanged lease; a new one lasts the configured time; the number of reserved snapshots stays within the limit; without a death it fails only at that limit or for a lease from the future. |
| `Mirror.Store.Reserve` | deploy/texlive-mirror/texlive_mirror.py:764-869 | A lease names a published snapshot on disk with the asked date and architecture; whoever asks for a reservable snapshot gets it unless a process dies, a lease comes from the future or too many snapshots are reserved. |
| `Mirror.Store.ReleaseLease` | deploy/texlive-mirror/texlive_mirror.py:872-883 | Only the owner gives a lease back, and without a death does; nothing else changes. |
| `Mirror.Store.BeginSync` | deploy/texlive-mirror/texlive_mirror.py:1926-1944 | The snapshot a sync reads from is protected for the sync timeout and 15 minutes before the section ends. |
| `Mirror.Store.FinishUnchanged` | deploy/texlive-mirror/texlive_mirror.py:1976-1994 | The record is refreshed and becomes latest; the saved file loads again exactly when the publication is not later than the sync's clock. |
| `Mirror.Store.Publish` | deploy/texlive-mirror/texlive_mirror.py:2106-2132 | No existing snapshot is replaced; the saved state is the old one with this record, published and verified now; a death between rename and save leaves consistent stores; the staging directory goes exactly when the snapshot appears; the directory says what the record will say. |
| `Mirror.PublishedStateMeans` | deploy/texlive-mirror/texlive_mirror.py:2113-2124 | The record is published, dated and verified now, carries this date only, and is the latest. |
| `Mirror.RefreshedDateIsReservable` | deploy/texlive-mirror/texlive_mirror.py:764-869 | A refreshed snapshot is reserved by the date of the refresh. |
| `Mirror.AdoptedSnapshotIsReservable` | deploy/texlive-mirror/texlive_mirror.py:1396-1415 | A snapshot whose sync died before recording it is taken over by the next collection and then reserved by its date. |
| `Mirror.Store.AbandonSync` | deploy/texlive-mirror/texlive_mirror.py:2139-2154 | A failed sync gives back its own protection and nothing else. |
| `Mirror.ClockRunsBack` | deploy/texlive-mirror/texlive_mirror.py:1981-1993 | A publication followed by a refresh from an attempt whose clock is behind ends in a state file that does not load, exactly when the clock is behind. |
| `Mirror.RefreshConsistent` | deploy/texlive-mirror/texlive_mirror.py:1981-1993 | The refreshed state is consistent if the clock has not run backwards and unloadable otherwise. |
| `Mirror.ExcessInState` | deploy/texlive-mirror/texlive_mirror.py:1454-1467 | Excess in the sorted listing is excess among the published records: too old, or as many others as are kept are no older. |
| `Mirror.PublishConsistent` | deploy/texlive-mirror/texlive_mirror.py:2110-2131 | Directory without record, and directory with record, are both consistent. |
| `Mirror.KeptIsProtected` | deploy/texlive-mirror/texlive_mirror.py:1594-1596 | Reconciliation and purging expired leases take no protection away. |
| `MirrorRuns.Operate` | deploy/texlive-mirror/texlive_mirror.py:610-649 | After any sequence of sections cut short anywhere the state file loads and reconciliation matches records and directories; without a death every staging directory has its marker. |
| `MirrorRuns.PerformAll` | deploy/texlive-mirror/texlive_mirror.py:764-2157 | Every such sequence is a run of `Step`s, the relation the lemmas below are about. |
| `MirrorRuns.LeaseHolds` | deploy/texlive-mirror/texlive_mirror.py:831-883 | Until it expires or its owner releases it a lease is unchanged and its snapshot stays published and on disk, whatever else runs or dies. |
| `MirrorRuns.ProtectionHolds` | deploy/texlive-mirror/texlive_mirror.py:1306-1345 | A run's protection and the protected snapshot stay until expiry or the run's own next section. |
| `MirrorRuns.LeasesEndOnTime` | deploy/texlive-mirror/texlive_mirror.py:831-869 | Every lease was issued by some acquisition for exactly the configured time; repeating it never extended it. |
| `MirrorRuns.ReservationsBounded` | deploy/texlive-mirror/texlive_mirror.py:846-853 | Over every run live leases name at most the configured number of snapshots. |
| `DependencyClosure.DependencyClosure` | deploy/texlive-mirror/texlive_mirror.py:982-1017 | The worklist ends (packages left, then queue weight); success is a selection closed relative to first-visit architectures in which nothing is superfluous; failure names a required entry the database lacks. |
| `DependencyClosure.CandidateIsPlain` | deploy/texlive-mirror/texlive_mirror.py:990-997 | A conditional dependency expands once. |
| `ClosureTheorems.SingleArchitectureIsLeastClosure` | deploy/texlive-mirror/texlive_mirror.py:982-1017 | With one architecture the selection is the least set containing the roots' packages and closed under dependencies. |
| `ClosureTheorems.SingleArchitectureIsDeterministic` | deploy/texlive-mirror/texlive_mirror.py:988-989 | The pop order does not matter. |
| `ClosureTheorems.NormaliseMeans` | deploy/texlive-mirror/texlive_mirror.py:1004-1005 | A name with a version requirement stands for the name before the first ">=", blanks dropped; one without stands for itself. |
| `ClosureTheorems.StripMeans` | deploy/texlive-mirror/texlive_mirror.py:1005-1005 | Stripping takes away blanks at both ends and nothing else. |
| `ClosureTheorems.WindowsIsIgnored` | deploy/texlive-mirror/texlive_mirror.py:998-999 | Other platforms' binaries are no packages. |
| `ClosureTheorems.SettingIsIgnored` | deploy/texlive-mirror/texlive_mirror.py:1000-1003 | The installer's own settings are no packages. |
| `ClosureTheorems.PlainNames` | deploy/texlive-mirror/texlive_mirror.py:1006-1013 | Any other name is a package of the database, a virtual one with a slash, or an error. |
| `ClosureExample.WalkIsNeeded` | deploy/texlive-mirror/texlive_mirror.py:993-1016 | In a tower of collection, tool and library exactly the pairs are needed that a walk keeping architectures apart visits, the library's binaries for both among them. |
| `ClosureExample.TwoArchitecturesLoseAPackage` | deploy/texlive-mirror/texlive_mirror.py:1006-1007 | Every selection the code can return for a tower whose collection does not name the library has that binary for one architecture only, and is incomplete. |
| `ClosureExample.OrderDecides` | deploy/texlive-mirror/texlive_mirror.py:988-989 | If the collection names the library too, one order of the queue gives a complete selection and another an incomplete one. |
| `ClosureExample.RunExample` | deploy/texlive-mirror/texlive_mirror.py:982-1017 | The walk accepts the example, a collection with a tool and a library, and returns an incomplete selection. |
| `ClosureArchitectures.NoConflictLosesNothing` | deploy/texlive-mirror/texlive_mirror.py:982-1017 | If no package whose conditional dependency has a package for one architecture is needed under it and under another one as well, every selection the code can return is complete. |
| `ClosureArchitectures.CompleteExactlyWithoutConflict` | deploy/texlive-mirror/texlive_mirror.py:982-1017 | Where conditional dependencies are private to packages needed for an architecture only, every selection is complete exactly when there is no such conflict. |
| `ClosureArchitectures.ConflictLosesAPackage` | deploy/texlive-mirror/texlive_mirror.py:1006-1007 | There each conflict loses a package in every order of the queue. |
| `ClosureArchitectures.OneArchitectureSelected` | deploy/texlive-mirror/texlive_mirror.py:990-997 | Of such a conditional dependency exactly the packages of the first visit's architecture are selected. |
| `ClosureArchitectures.NeededIsClosed` | deploy/texlive-mirror/texlive_mirror.py:993-1016 | The pairs every closed set has are closed themselves, so there is a least one. |
| `ClosureArchitectures.CompleteMeans` | deploy/texlive-mirror/texlive_mirror.py:993-1016 | To be complete is to have every needed package, or everything the walk for each single architecture selects. |
| `ClosureArchitectures.SelectionWithinUnion` | deploy/texlive-mirror/texlive_mirror.py:1000-1016 | It never contains a package none of those selections contains. |
| `ClosureArchitectures.UnionIsClosed` | deploy/texlive-mirror/texlive_mirror.py:993-1016 | The selections for each architecture together lose nothing. |
| `ClosureArchitectures.ClosureIsNeeded` | deploy/texlive-mirror/texlive_mirror.py:993-1016 | Whatever loses nothing contains each of them. |
| `ClosureArchitectures.SelectedConditionalsSuffice` | deploy/texlive-mirror/texlive_mirror.py:990-997 | A check of the returned selection: it is complete if all its `.ARCH` lines stand for selected packages. |
| `ArchivePaths.PackageFiles` | deploy/texlive-mirror/texlive_mirror.py:1020-1043 | One entry per selected archive package, in order; failure exactly when one of them lacks a size or a valid checksum. |
| `ArchivePaths.AllDownloadableMeans` | deploy/texlive-mirror/texlive_mirror.py:1028-1035 | A selection is accepted exactly when each of its archive packages has a valid checksum, a size and a revision of digits. |
| `ArchivePaths.RevisionMeans` | deploy/texlive-mirror/texlive_mirror.py:40-40 | Revisions are the numbers below 10^16 without leading zeros. |
| `ArchivePaths.HexMeans` | deploy/texlive-mirror/texlive_mirror.py:1028-1030 | The characters of a checksum. |
| `ArchivePaths.ItemsAreFiles` | deploy/texlive-mirror/texlive_mirror.py:1036-1042 | Every accepted archive package is listed under its own archive path. |
| `ArchivePaths.ItemMeans` | deploy/texlive-mirror/texlive_mirror.py:1036-1042 | An entry names the archive of the revision, its size and its checksum in lower case. |
| `ArchivePaths.PackageAliases` | deploy/texlive-mirror/texlive_mirror.py:1046-1066 | Aliases exist exactly when no selected package is called like another one's revisioned archive, and each is accepted by `validate_manifest_alias`. |
| `ArchivePaths.ArchivePathInjective` | deploy/texlive-mirror/texlive_mirror.py:1038-1038 | A path determines package and revision, because only digits follow the last ".r". |
| `ArchivePaths.AliasCollides` | deploy/texlive-mirror/texlive_mirror.py:1056-1062 | When an alias meets an archive path. |
| `ArchivePaths.RejectedForItsNames` | deploy/texlive-mirror/texlive_mirror.py:1056-1062 | Packages "a" at revision 1 and "a.r1" pass the parser and `package_files`, and are rejected for their aliases. |
| `ArchivePaths.AliasIsSafe` | deploy/texlive-mirror/texlive_mirror.py:344-354 | Both paths are safe relative paths in one directory. |
| `ArchivePaths.AliasesAreValid` | deploy/texlive-mirror/texlive_mirror.py:370-379 | Every alias built without a clash passes the manifest check. |
| `ArchivePaths.ValidAliasMeans` | deploy/texlive-mirror/texlive_mirror.py:370-379 | When reading the manifest rejects an alias. |
| `ArchivePaths.ManifestPathsDistinct` | deploy/texlive-mirror/texlive_mirror.py:1036-1065 | No two files and no two aliases of one manifest share a path, and each alias targets its own file. |
| `Capacity.AcceptedEstimateLeavesRoom` | deploy/texlive-mirror/texlive_mirror.py:1280-1303 | An accepted estimate leaves room for every new file twice and the headroom, below the sync peak and above the free minimum. |
| `Capacity.AcceptedExactlyWhen` | deploy/texlive-mirror/texlive_mirror.py:1280-1303 | Acceptance without rounding: managed bytes, new bytes, their temporary share and the headroom fit below the peak and above the free minimum, and there are inodes for every file. |
| `Capacity.FillStage` | deploy/texlive-mirror/texlive_mirror.py:2031-2042 | After each file the disk has grown by the files so far that were neither present nor linked. |
| `Capacity.Fill` | deploy/texlive-mirror/texlive_mirror.py:2002-2042 | After an accepted estimate managed bytes stay within the sync peak, below the hard limit, and the free minimum holds after every file, exactly when all that is downloaded fits. |
| `Capacity.FetchedAtMost` | deploy/texlive-mirror/texlive_mirror.py:2033-2040 | Downloaded are at most the new and the damaged files, and exactly these if nothing was present before. |
| `Capacity.IntactSources` | deploy/texlive-mirror/texlive_mirror.py:2035-2038 | With intact sources every accepted sync stays within the limits throughout. |
| `Capacity.SpareRoomTakesDamage` | deploy/texlive-mirror/texlive_mirror.py:1288-1291 | So does one whose damaged files fit the spare room and the headroom. |
| `Capacity.DamageNoLargerThanNews` | deploy/texlive-mirror/texlive_mirror.py:1289-1291 | So does one whose damaged files are together no larger than the new ones and the headroom. |
| `Capacity.DamagedSourcesExceedLimits` | deploy/texlive-mirror/texlive_mirror.py:2035-2040 | With the default configuration, an accepted sync whose damaged source of 5.5 GiB ends above the hard limit. |
| `StagedPublication.CommittedStagesExist` | apps/renderer-worker/src/staged-job-processor.ts:242-306 | In every run every generation an artifact row or the checkpoint names is on disk, and the checkpoint names published rows only. |
| `StagedPublication.CommittedForever` | apps/renderer-worker/src/staged-job-processor.ts:258-305 | A published path keeps its generation, and that its contents, until an SVG commit replaces the path; a path outside `svg/` keeps them forever. |
| `StagedPublication.CheckpointForever` | packages/database/src/repositories/output-stages.ts:127-157 | The PDF checkpoint never moves, through cancellations, recoveries and SVG retries. |
| `StagedPublication.CheckpointFilesForever` | apps/renderer-worker/src/staged-job-processor.ts:258-305 | The directory of the PDF checkpoint is never replaced or deleted. |
| `StagedPublication.SupersededBySvg` | packages/database/src/repositories/artifacts.ts:166-189 | A generation stops being referenced only by an SVG commit of a later lease, so only SVG generations are superseded. |
| `StagedPublication.RemovalIsOwn` | apps/renderer-worker/src/staged-job-processor.ts:591-601 | A cleanup removes only unreferenced directories of its own lease, a recovery only of the lease it took over. |
| `StagedPublication.ReferencedUntouched` | apps/renderer-worker/src/staged-job-processor.ts:510-601 | No step removes or replaces a directory while an artifact row refers to it. |
| `StagedPublication.NewReference` | apps/renderer-worker/src/staged-job-processor.ts:261-300 | Only the owner of the present lease adds references, to its own two generations. |
| `StagedPublication.PdfAfter` | packages/database/src/repositories/output-stages.ts:138-156 | Only a PDF commit sets the PDF checkpoint, once. |
| `StagedPublication.SvgAfter` | packages/database/src/repositories/output-stages.ts:159-222 | The SVG checkpoint changes only by an SVG commit, and a retry takes it back. |
| `StagedPublication.StepKeepsReferences` | apps/renderer-worker/src/staged-job-processor.ts:603-631 | Every step keeps references on disk and the checkpoint published. |
| `StagedPublication.LostLeaseCommitsNothing` | apps/renderer-worker/src/stage-recovery.ts:28-50 | The snapshot of references cannot go stale before recovery deletes. |
| `StagedPublication.StepKeepsRecoveries` | apps/renderer-worker/src/stage-recovery.ts:78-124 | What a recovery is about to remove stays unreferenced. |
| `StagedPublication.StepKeepsWorkers` | apps/renderer-worker/src/staged-job-processor.ts:76-83 | A worker tracks only uncommitted directories of its own lease, and finds them while it owns the row. |
| `StagedPublication.RunKeepsInv` | apps/renderer-worker/src/recovery.ts:11-46 | All of this holds in every run, with takeovers at any moment. |
| `JobOutcomes.OutcomeFollowsStages` | apps/renderer-worker/src/staged-job-processor.ts:529-586 | In every run a job has succeeded exactly when its SVG stage has; then its PDF has too and nobody owns it; a job is over exactly when no stage is open. |
| `JobOutcomes.SvgDecides` | apps/renderer-worker/src/staged-job-processor.ts:529-569 | The commit of an SVG stage ends the job with the outcome of that stage. |
| `JobOutcomes.EndingsDecide` | packages/database/src/repositories/worker.ts:191-240 | Every other ending gives the job the status of that ending and no owner. |
| `JobOutcomes.OwnerEnds` | apps/renderer-worker/src/failure.ts:24-64 | A failure is recorded without files exactly by a living owner after the PDF; a cancellation is confirmed exactly by a living owner. |
| `JobOutcomes.DeadIsDead` | apps/renderer-worker/src/staged-job-processor.ts:76-83 | A dead worker does nothing more. |
| `JobOutcomes.SucceededForever` | packages/database/src/repositories/worker.ts:65-101 | Success is final: neither row nor published paths change any more. |
| `JobOutcomes.CancellationHolds` | packages/database/src/repositories/jobs.ts:349-360 | After a cancellation nothing is published and the job does not succeed, until a retry. |
| `JobOutcomes.RetriesAreCounted` | packages/database/src/repositories/output-stages.ts:191-222 | The attempt number is one more than the retries so far, and at most eight. |
| `JobOutcomes.RetryIsOffered` | packages/database/src/repositories/output-stages.ts:191-222 | A job that failed or was canceled after its PDF can be retried up to that limit. |
| `JobOutcomes.RunKeepsJob` | packages/database/src/schema.ts:495-517 | The triggers and guards keep job row and checkpoint row consistent in every run. |
| `JobProgress.EveryOpenJobCanSucceed` | apps/renderer-worker/src/staged-job-processor.ts:30-586 | From every state of every run a job that is neither over nor canceled can still succeed and show what was rendered. |
| `JobProgress.EveryFailedSvgCanSucceed` | packages/database/src/repositories/output-stages.ts:191-222 | So can one whose SVG stage failed, by a retry. |
| `JobProgress.CanceledJobEnds` | apps/renderer-worker/src/recovery.ts:75-103 | A canceled job that still has an owner can always be brought to rest. |
| `JobProgress.DiagnosticsFollow` | apps/renderer-worker/src/staged-job-processor.ts:175-222 | If the PDF cannot be rendered its diagnostics are published and the job ends. |
| `JobProgress.LeftoverCanBePruned` | apps/renderer-worker/src/stage-recovery.ts:78-124 | A recovery can remove whatever the lost lease left unpublished, and nothing else goes. |
| `JobProgress.WorkerCanCleanUp` | apps/renderer-worker/src/staged-job-processor.ts:591-601 | A worker can remove everything it renamed and did not commit. |
| `StagedPublication.FailureGenerationMeetsOneWorker` | apps/renderer-worker/src/failure.ts:65-69 | A directory named by the bare lease number that some worker still tracks is tracked by the fenced worker of half that lease only. |
| `FailureRecords.RecordedMeans` | apps/renderer-worker/src/failure.ts:102-143 | The record adds its own directory and paths and ends the job; nothing else changes. |
| `FailureRecords.RecordKeptExactlyWhen` | apps/renderer-worker/src/failure.ts:65-149 | A recorded failure keeps its files in every later run exactly when nobody is about to remove a directory of that number at the record. |
| `FailureRecords.ClosedForever` | packages/database/src/repositories/worker.ts:210-240 | After such a record neither rows nor files of it change any more. |
| `FailureRecords.ThreatIsHalfTheLease` | apps/renderer-worker/src/stage-recovery.ts:28-29 | Whoever might remove it is the fenced worker of half the lease or the recovery that took over from it. |
| `FailureRecords.RecordedFailureCanBeLost` | apps/renderer-worker/src/failure.ts:102-149 | A reachable state in which lease 6 records a failure and the stalled worker of lease 3 can delete its files. |
| `StagedPublication.GenerationsAreDistinct` | apps/renderer-worker/src/preview-processor.ts:45-47 | Stage and preview generations never share a directory while lease numbers stay below 2^39. |
| `FixedWindow.SpanLimit` | apps/remote-mcp/src/app.ts:517-550 | Any span of one window holds fewer than twice the limit. |
| `FixedWindow.BlockedSpanLimit` | packages/auth/src/browser.ts:796-825 | A block after a full window takes one more event off. |
| `RegistrationLimiter.AnonymousRegistrationLimiter.Consume` | apps/remote-mcp/src/app.ts:517-550 | Exactly the accepted registrations enter the address's history; the two refusals and the retry time are as the code computes them; the table never exceeds 10,000 entries. |
| `RegistrationLimiter.AnonymousRegistrationLimiter.IdleBlockedUntil` | apps/remote-mcp/src/app.ts:508-510 | Non-zero as long as any window is running. |
| `RegistrationLimiter.AnonymousRegistrationLimiter.AtMostNineteen` | apps/remote-mcp/src/app.ts:517-550 | Any half-open 15 minutes hold at most 19 accepted registrations of one address. |
| `RegistrationLimiter.NineteenAtOnce` | apps/remote-mcp/src/app.ts:517-550 | The bound is reached: a limiter accepts 19 registrations of one address within two milliseconds. |
| `LoginThrottle.LoginAttempts.IsRateLimited` | packages/auth/src/browser.ts:778-794 | Limited exactly when some key is blocked now. |
| `LoginThrottle.LoginAttempts.BlockedExactlyWhen` | packages/auth/src/browser.ts:778-825 | A key is blocked exactly when its last window holds five failures, for 15 minutes from the last of them. |
| `LoginThrottle.LoginAttempts.PruneLoginAttempts` | packages/database/src/repositories/browser-auth.ts:426-439 | Idle rows go, then the least recently updated ones, and no more than needed. |
| `LoginThrottle.LoginAttempts.RecordLoginFailure` | packages/auth/src/browser.ts:796-825 | Each key's history grows by exactly this failure and its row describes it, the table stays within 10,000 rows, and only a full table forgets a history, a least recently updated one. |
| `LoginThrottle.LoginAttempts.LoginPassword` | packages/auth/src/browser.ts:373-466 | A blocked attempt changes nothing, a success clears the account's key only, a failure extends both histories. |
| `LoginThrottle.LoginAttempts.AtMostEight` | packages/auth/src/browser.ts:778-825 | Any half-open 15 minutes hold at most 8 recorded failures of one key since it was cleared or dropped. |
| `LoginThrottle.EightAtOnce` | packages/auth/src/browser.ts:373-466 | The bound is reached: 8 attempts within two milliseconds fail and are recorded before both keys are blocked. |
| `LoginThrottle.KeptOk` | packages/auth/src/browser.ts:800-803 | Deleting rows idle for a day loses nothing the bound depends on. |
| `LoginThrottle.KeptRow` | packages/database/src/repositories/browser-auth.ts:426-439 | Row by row: what was updated since the cutoff stays unless it had to make room. |
| `OidcFlows.OidcClient.BeginLogin` | packages/auth/src/oidc.ts:106-107 | Expired flows go first; a full table is busy; a start that goes on enters its client's history, a refused one changes none. |
| `OidcFlows.OidcClient.ConsumeFlowStart` | packages/auth/src/oidc.ts:294-321 | Exactly accepted starts enter the client's history; only a full table loses a running window, one that began first. |
| `OidcFlows.OidcClient.FinishBegin` | packages/auth/src/oidc.ts:109-120 | A flow is added only below 1,000 pending ones and the deadline covers it. |
| `OidcFlows.OidcClient.TakeFlow` | packages/auth/src/oidc.ts:144-157 | A state is accepted exactly when its flow is pending and unexpired, and is gone afterwards. |
| `OidcFlows.OidcClient.PruneFlows` | packages/auth/src/oidc.ts:282-292 | Exactly the expired flows go. |
| `OidcFlows.OidcClient.IdleBlockedUntil` | packages/auth/src/oidc.ts:65-69 | Non-zero as long as any flow or window is live. |
| `OidcFlows.OidcClient.AtMostThirtyNine` | packages/auth/src/oidc.ts:294-321 | Any half-open 15 minutes hold at most 39 starts of one client whose window was not evicted. |
| `OidcFlows.Interleave` | packages/auth/src/oidc.ts:102-158 | However begins and callbacks interleave at their awaits, a state is accepted at most once, after it was issued and before it expires. |
| `UploadNonces.NonceRow.ClaimNonce` | packages/database/src/index.ts:202-221 | A claim succeeds exactly for the right job, before the ticket expires, when every earlier claimant released; it then holds exactly until its deadline. |
| `UploadNonces.NonceRow.ExtendNonceClaim` | packages/database/src/index.ts:222-236 | Exactly the latest claimant, with nothing but extensions since its claim and before its deadline, extends. |
| `UploadNonces.NonceRow.ConsumeNonce` | packages/database/src/index.ts:237-246 | Exactly the latest claimant, with nothing but extensions since its claim and before its deadline, consumes, and no earlier operation did. |
| `UploadNonces.NonceRow.ReleaseNonce` | packages/database/src/index.ts:247-255 | Exactly the latest claimant, with nothing but extensions since its claim and before its deadline, releases; afterwards every claim so far is released and nobody holds. |
| `UploadNonces.ConsumerHoldsLatestClaim` | packages/database/src/index.ts:237-246 | Only the owner of the latest claim consumes a nonce, while the claim is in force. |
| `UploadNonces.LatestClaim` | packages/database/src/index.ts:202-246 | A claimed row belongs to its latest claim, and only extensions succeeded since. |
| `UploadNonces.ConsumedForever` | packages/database/src/index.ts:237-255 | A consumed nonce never changes again. |
| `UploadNonces.ClaimsAreSeparated` | packages/database/src/index.ts:202-255 | Between two successful claims the first owner released. |
| `UploadNonces.FreeMeansReleased` | packages/database/src/index.ts:202-255 | A nonce is free only if every successful claim was released by its owner. |
| `UploadNonces.ReleasedMeansFree` | packages/database/src/index.ts:202-255 | And if every successful claim was released, the nonce is free. |
| `UploadNonces.HoldsMeansHolder` | packages/database/src/index.ts:222-255 | A claim is in force exactly for the latest claimant until its deadline. |
| `UploadNonces.LapsedIsFinal` | packages/database/src/index.ts:222-255 | A lapsed claim is changed by none of these operations. |

## Left out

- File modes, ownership, symbolic links, devices, mounts, fsync and Windows differences;
  only the process-crash behaviour of rename, mkdir and listing is kept.
- Entry and byte budgets of the output tree, of record files and of job metadata; sizes of
  advertised artifacts.
- Edits of the output while it is being copied are not told apart from edits after the
  build.
- ArtifactStore.OutputStore.RemoveGarbage: removal of a tree is two steps, emptied and gone,
  not one per file.
- ClaimLock models `acquire` as a step relation, because interleaving of its file operations
  is the point; the limit of 256 records and unknown names count as giving up.
- ArtifactDownload.StageArtifacts: parsing and printing of JSON and of very large numbers
  are parameters, and directories in the way of files are not modelled.
- Mirror: lists of dates are sets, the hashes and URLs in records and leases are dropped, a
  manifest's payload check is one flag, trash draining and events are not modelled, and the
  tie order of equal publication times is the one of the id's year and digest.
- Mirror.Store.RecoverStaging: entries of `staging/` are directories and their markers
  well-formed.
- Mirror.Store.CloseStaging: the removal is two steps, marker and directory, not one per
  file.
- Mirror.Store.LoadState: the shape of the JSON, its time stamps and hashes are taken as
  well-formed; creating a missing file is not modelled.
- Mirror.Store.CollectOne: the disk readings between deletions are parameters; the loop
  around the section is `Retention.DeletionLoop`, with protections and clock fixed.
- ClosureArchitectures.NoConflictLosesNothing: the other half is proved for databases with
  private conditional dependencies only, because elsewhere the order of the queue decides.
- DependencyClosure.DependencyClosure: with several architectures closure is relative to the
  architecture of each package's first visit, which is all the code guarantees.
- Capacity.Fill: content bytes only; no block rounding, no other writer, and the inode check
  is kept but not followed up.
- StagedPublication abstracts rendering, validation, audit rows, quotas and the attempt
  directories; a job starts queued, transfer leases only let recovery skip a removal, the
  deletion of whole jobs (`deploy/scripts/cleanup.mjs`) is not modelled, and of `failure.ts`
  only the branch after a published PDF is a step of it.
- FailureRecords.RecordKeptExactlyWhen: rename and transaction of the other branch are one
  step; what happens when the lease is lost between them is not followed.
- StagedPublication.GenerationsAreDistinct: the bound on lease numbers is an assumption
  about the database.
- Preview conversion is reduced to its generation numbers.
- LoginThrottle.LoginAttempts.LoginPassword: attempts that overlap during password
  verification are not covered; each is checked and recorded before the next.
- LoginThrottle.LoginAttempts.RecordLoginFailure: for a key that is blocked meanwhile, which
  needs overlapping attempts, only the row is described, not the history.
- LoginThrottle.LoginAttempts.PruneLoginAttempts: among rows updated at the same time the
  order by key is left open.
- OpenID Connect discovery, token exchange and identity checks, nonces, verifiers and return
  paths.
- Templates, static site, command line, tool registration, schemas, setup, installers,
  status probes and diagnostics: plumbing that would only add easy members.
