# Verified model of the Neuron connector core

Neuron copies issues, pages and commits from providers (Jira, Notion, Bitbucket, GitHub) into a local
ledger and from there into a knowledge graph. This project models the parts of it whose correctness rests
on several functions and on long runs, and proves what they promise:

- **Leased job queue** (`Jobs`, `JobRuns`): workers claim, heartbeat, complete and fail jobs; expired leases
  are recovered inside `claim`. `Jobs.ConnectorJobStore` is the store; `JobRuns` puts any number of workers
  over one table, with the SQLite claim as one atomic step and the Postgres claim as an open transaction with
  row locks that may commit, abort or interleave with everything else.
- **Connector ledger** (`Ledger` and the `Ledger*` modules): `Ledger.ConnectorLedger` is the object over the
  tables; each table family has a module with its statements as functions and the theorems about whole runs.
- **SQL dialect shim** (`SqlTranslate`, `SqlScript`, `PgSession`): the placeholder translator as a compiler,
  the script splitter as a parser, the savepoint-guarded transaction as a refinement of SQLite's, and the pool
  (`PgPool`).
- **Rate limiter and retry loop** (`RateLimiter`), **commit paging** (`CommitPages`).
- **Changelog index and graph walks** (`FieldHistory`, `JiraSubtree`, `NotionPages`, over `Graph`).
- **Copy order** (`FkOrder`), **calibration error** (`Calibration`), **prefix patterns** (`LikePrefix`),
  **OAuth states and sync runs** (`OAuthStore`), and the fact every stored timestamp relies on: text order is
  time order (`IsoTime`, over `Text`).

Code that changes state step by step is a class with methods proved against a specification function; runs
are sequences of events folded with the same function. Check with `dafny verify dfyconfig.toml`.

Where the code does not do what its documentation says, the model follows the code and the exact condition
is proved:

- `save_chunks` is documented as a diff between versions, but a chunk that comes back after having been
  superseded violates the primary key and the whole save fails: so reverting an edit fails
  (`LedgerChunks.SaveSucceedsIff`, `LedgerChunks.RevertedEditFails`).
- `field_intervals` says its last interval is open when it matches the current value; the code consults the
  current value only when there is no change at all (`FieldHistory.OpenIntervalIsCurrentIff`,
  `FieldHistory.OpenIntervalIsStale`).
- The ledger's prefix queries escape `%` and `_` but not the backslash, so they are exact exactly for prefixes
  without one (`LikePrefix.ShortEscapingIsExactIff`). `purge_ledger_prefix` lower-cases by Unicode but compares
  with the engine's `LOWER()`, so it is exact exactly when the prefix has no capital outside ASCII
  (`LikePrefix.PurgeIsExactIff`, `LikePrefix.AccentedPrefixMissesItself`).
- `enqueue` accepts `max_attempts` below one; such a job is queued and can never be claimed
  (`JobRuns.NothingIsParked`, `JobRuns.NoBudgetIsParked`).
- `delete_findings_with_prefix` deletes evidence only when some finding is still located under the prefix
  (`LedgerFindings.PrefixIsCleanIff`, `LedgerFindings.MovedTopicLeavesEvidence`).
- Adoption is revertible when candidates are adopted at once; shapes adopted from an outdated candidate list
  break it (`LedgerAdoption.AdoptionIsExactIff`, `LedgerAdoption.StaleCandidatesBreakIt`). Seeding a shape that
  stands adopted adds nothing, so undoing the adoption takes the seeded shape away
  (`LedgerAdoption.SeededSurviveIff`, `LedgerAdoption.SeedOfAdoptedIsLost`).
- A statement the server fails is undone alone, as on SQLite, unless its text starts with SELECT or WITH, or it is
  an executemany that fails after its first rows changed the database: SQLite keeps those rows, the shim does not
  (`PgSession.SameAsSqliteIff`, `PgSession.FailedReadLosesAll`, `PgSession.HalfDoneBatchDiffers`). What the driver
  refuses before the server sees it makes no difference.
- `reused_done` undercounts the extractions saved when writes arrive already done
  (`LedgerChunks.ReusedDoneIsWorkSaved`, `LedgerChunks.NewDoneIsNotCounted`).
- Two commits of one record that pass each other between their transactions leave the content hash and the
  latest version different (`LedgerVersions.CurrentIsLatestVersionIff`, `LedgerVersions.InterleavedCommitsDiverge`).
- A Notion page listed in a database is passed over when it was first met as a child block whose GET failed, with
  everything only it links to (`NotionPages.CoverageIsCompleteIff`, `NotionPages.DetourIsMissed`); a workspace
  without such a page is covered exactly (`NotionPages.UnambiguousCoverageIsExact`).
- `field_intervals` returns nothing for a field that never changed when the creation time is unknown, although
  there is a current value (`FieldHistory.HistoryIsExact`).
- `commits_capped` can be true although nothing is left (`CommitPages.CappedIsExactIff`,
  `CommitPages.EmptyPageAtTheLimit`), and the script
  splitter and the translator agree on what is quoted exactly when quotes are closed (`SqlScript.MasksAgree`).

## Model

| member | source | states |
|---|---|---|
| Jobs.ConnectorJobStore.Enqueue | connectors/core/jobs.py:79-91 | A new job waits with no attempts used and no lease; a taken id is refused and changes nothing. |
| Jobs.ConnectorJobStore.Recover | connectors/core/jobs.py:96-99 | First statement of a claim: exactly the free running rows whose lease ended before now become retry, or dead once their attempts are used up, with no lease and available at once; every other row, one with a lease that ends now or later included, is as it was. |
| Jobs.ConnectorJobStore.LeaseFirst | connectors/core/jobs.py:100-132 | Second statement: leases one claimable free row that sorts first by available_at, created_at, or finds that there is none; one attempt is used and no other row changes. |
| Jobs.ConnectorJobStore.Claim | connectors/core/jobs.py:103-132 | Recovery and lease as one step: no row with a live lease and none whose delay has not passed is touched; the job returned waited, gets one more attempt and a lease until now plus the lease time, and no other claimable row was available before it (created_at decides ties); None means nothing was claimable. |
| Jobs.ConnectorJobStore.Heartbeat | connectors/core/jobs.py:163-172 | Renews the lease, and reports so, exactly for the running row leased to this worker. |
| Jobs.ConnectorJobStore.Complete | connectors/core/jobs.py:174-182 | Completes the row exactly when this worker holds its lease; otherwise nothing changes. |
| Jobs.ConnectorJobStore.Fail | connectors/core/jobs.py:184-202 | Decides dead or retry from the snapshot and delays the row by the retry delay, only if this worker still holds the lease. |
| Jobs.RetryDelayBounds | connectors/core/jobs.py:190-194 | The delay is between one second and one hour, never shrinks as attempts grow, stays below 300 s without guidance, and honours what the provider asks for within the bounds. |
| Jobs.RetryDelayDoubles | connectors/core/jobs.py:190-194 | The delay is a second after the first attempt and doubles with each further one, up to 300 s; a provider that asks for more, within 1 to 3600 s, is given it. |
| JobRuns.StepKeepsInv | connectors/core/jobs.py:103-202 | Every event of every worker, on both backends and inside open claims, keeps: lease fields set iff running, attempts within budget, waiting jobs claimable, each lease naming the worker whose snapshot is that claim. |
| JobRuns.RunKeepsInv | connectors/core/jobs.py:103-202 | The same over every interleaving of enqueue, claim, heartbeat, complete, fail, crash and abort. |
| JobRuns.TerminalIsAbsorbing | connectors/core/jobs.py:174-202 | Once a row is completed or dead no later event of anybody changes it. |
| JobRuns.AttemptsCountLeases | connectors/core/jobs.py:120-161 | Attempts grow by exactly one for each claim that takes effect and are never given back, recovery and aborted claims included. |
| JobRuns.WorkIsBounded | connectors/core/jobs.py:93-101 | From the empty queue a job has been handed out exactly `attempts` times and at most max_attempts times. |
| JobRuns.EachClaimUsesOneAttempt | connectors/core/jobs.py:93-161 | The attempts any set of jobs has left are a termination measure: never negative, lowered by exactly one by each claim that takes effect, and changed by no other event of any worker. |
| JobRuns.StaleWorkerIsFenced | connectors/core/jobs.py:163-202 | A worker that lost its lease cannot change the job by any heartbeat, complete, fail, crash or abort, whoever holds it meanwhile and whatever else the worker claims, until it leases this job again. |
| JobRuns.ClaimTakesLease | connectors/core/jobs.py:103-119 | An SQLite claim that recovers an expired job takes the lease from its worker. |
| JobRuns.CommitTakesLease | connectors/core/jobs.py:134-161 | A Postgres claim that locked a leased job takes the lease from its worker when it commits. |
| JobRuns.RecoverTakesLease | connectors/core/jobs.py:142-148 | The Postgres recovery is invisible until its commit, and then the worker has lost the lease. |
| JobRuns.AtMostOneHolder | demo_ui/backend/job_worker.py:87-131 | Two workers believing they hold one job hold different claims of it; only the latest claim can have the lease. |
| JobRuns.LeaseIsExclusive | connectors/core/jobs.py:93-161 | Mutual exclusion over every run: a running job is changed only by the worker that holds its lease, by a claim made after the lease has ended, or by the commit of a Postgres claim that recovered it after the lease had ended. |
| JobRuns.HolderKeepsJob | connectors/core/jobs.py:163-172 | A worker that heartbeats before its lease ends keeps the job under the same attempt, whatever all the others do, until it completes or fails it or stops. |
| JobRuns.ClaimHolds | connectors/core/jobs.py:100-161 | A claim that takes effect leaves its worker holding the job, one attempt further, until the lease it took ends. |
| JobRuns.RetryDelayIsWaitedFor | connectors/core/jobs.py:184-202 | After a failure that leaves attempts to make nobody is handed the job before the retry delay has passed, over every run in between without a claim of it. |
| JobRuns.NewJobIsAvailable | connectors/core/jobs.py:79-101 | A new job is available from the moment it was enqueued and handed out no earlier. |
| JobRuns.FailDecidesLikeTheRow | connectors/core/jobs.py:188-202 | Wherever fail takes effect, the snapshot it decides from agrees with the row, so dead means the budget really is used up. |
| JobRuns.NothingIsParked | connectors/core/jobs.py:93-101 | Once delays and leases have run out, the recovery inside a claim leaves a job claimable or finished iff it was enqueued with max_attempts >= 1; otherwise it is queued for ever. |
| JobRuns.NoBudgetIsParked | connectors/core/jobs.py:79-101 | A run that enqueues with max_attempts 0 leaves a queued job that no claim can ever take. |
| IsoTime.TextOrderIsTimeOrder | connectors/core/jobs.py:82-122 | For UTC datetimes with four-digit years, comparing isoformat() text decides before, at most and equal as the clock does, although the fraction is dropped at zero microseconds. |
| IsoTime.IsoReadsBack | connectors/core/jobs.py:82-122 | Every field can be read back from its place in the stored text, which has 25 characters, or 32 with a fraction when the microseconds are not zero. |
| IsoTime.InstantIsFieldOrder | connectors/core/oauth_store.py:162-198 | Order by year, month, day, hour, minute, second, microsecond is order of instants in the Gregorian calendar. |
| Ledger.ConnectorLedger.constructor | connectors/core/ledger.py:399-831 | Every table starts empty: the state all runs start from. |
| Ledger.ConnectorLedger.SaveChunks | connectors/core/ledger.py:934-1030 | Fails, leaving everything as it was, iff an incoming id names a superseded row; otherwise the table is the one the four LedgerChunks.Save* lemmas describe row by row, and the four counts are the sizes of the kept, added, superseded and reused sets. |
| Ledger.ConnectorLedger.UpdateKept | connectors/core/ledger.py:989-1008 | Kept rows take the new position and disposition, stay done if they were, and keep their text; nothing else changes. |
| Ledger.ConnectorLedger.InsertAdded | connectors/core/ledger.py:1009-1019 | Inserts all new rows, done where their text was adopted (LedgerChunks.SaveWritesNew says what each holds), or stops because one of them is already there. |
| Ledger.ConnectorLedger.SupersedeGone | connectors/core/ledger.py:1020-1023 | Marks exactly the vanished rows superseded, deleting none. |
| Ledger.StagesSave | connectors/core/ledger.py:985-1023 | The three statements together are the specified save, row by row. |
| Ledger.ClashesIffNotAddable | connectors/core/ledger.py:967-1019 | The insert meets an existing row exactly when an incoming id names a superseded row of the record. |
| Ledger.CountReused | connectors/core/ledger.py:1024-1030 | reused_done counts the kept chunks that were done and the added ones whose text was adopted. |
| LedgerChunks.SaveReplacesLive | connectors/core/ledger.py:985-1030 | After a save the live ids are the incoming ids; kept + superseded is the number that were live, kept + added the number incoming. |
| LedgerChunks.SaveWritesNew | connectors/core/ledger.py:967-1019 | A new id's row holds the text, position, model text, resolution and reason of the last write with it, is committed now and live, and is done iff written so or its text is done in a live chunk of the record adopted from, otherwise as written. |
| LedgerChunks.SaveUpdatesKept | connectors/core/ledger.py:989-1008 | A kept id's row keeps its text and commit time, takes position, model text, resolution and reason from the last write with it, and is done if it was or arrives so, else pending. |
| LedgerChunks.SaveSupersedesGone | connectors/core/ledger.py:985-1023 | A row no write names is superseded now if it was live, and otherwise unchanged. |
| LedgerChunks.SaveLeavesTheRest | connectors/core/ledger.py:985-1023 | No row of another record changes, and a save that names a superseded row changes nothing. |
| LedgerChunks.DoneLasts | connectors/core/ledger.py:949-955 | Over any run, while every version of its record has the chunk and it is neither requeued nor deleted, a done chunk stays live and done, with its text. |
| LedgerChunks.ReusedDoneIsWorkSaved | connectors/core/ledger.py:1024-1030 | reused_done never exceeds the live chunks that need no extraction, and equals their number iff every write that arrives done was done before (kept) or has an adopted text (new). |
| LedgerChunks.NewDoneIsNotCounted | connectors/core/ledger.py:1024-1030 | A first save of one chunk that arrives done leaves one live done chunk and counts no reuse. |
| LedgerChunks.SavedIsUnique | connectors/core/ledger.py:934-1030 | The specified save leaves no choice of result. |
| LedgerChunks.TableMatchesHistory | connectors/core/ledger.py:934-1030 | Over any run of saves, chunk commits, requeues, deletes and prefix purges of any records, a record's live ids and all its ids are what its own history of accepted versions predicts. |
| LedgerChunks.SaveSucceedsIff | connectors/core/ledger.py:1009-1019 | Over any run a save succeeds iff it brings back no id the record had and lost since its last delete. |
| LedgerChunks.RevertedEditFails | connectors/core/ledger.py:937-961 | Saving a version, then one that drops a chunk of it, then the first again fails. |
| Ledger.ConnectorLedger.CommitChunk | connectors/core/ledger.py:1111-1116 | Sets status and commit time of the one row, if it exists. |
| Ledger.ConnectorLedger.PendingChunks | connectors/core/ledger.py:1087-1109 | Returns live pending chunks of committed records in the order priority, commit time, position, as many as the budget or the queue allows (a negative budget is none on SQLite and an error on Postgres), leaving out nothing that sorts earlier and nothing at all when the budget is not used up, restricted to the prefix query if one is given; each row carries its position, its text, and to extract from the model's text or, without one, the text. |
| Ledger.ConnectorLedger.RecordFullyProcessed | connectors/core/ledger.py:1156-1167 | True iff every live chunk of the record is done. |
| LedgerQueue.SelectPending | connectors/core/ledger.py:1087-1109 | ORDER BY priority desc, committed_at, index LIMIT n over live pending chunks of committed records. |
| LedgerQueue.SavedChunkWaits | connectors/core/ledger.py:989-1019 | A chunk saved as pending that was not done already waits in the queue of its committed record, with the model text and position of its last write, until its record is saved again or removed or the chunk is committed, whatever else happens. |
| Ledger.RecommittedGoesFirst | connectors/core/ledger.py:883-898 | Whoever is handed a chunk of a record committed once was handed every waiting chunk of a record committed more often first. |
| LedgerQueue.PassesAreOneQuery | connectors/core/ledger.py:1087-1116 | k passes with budget B visit what a single query with budget k*B returns, in that order. |
| LedgerQueue.DrainTakesCeiling | connectors/core/ledger.py:1087-1116 | Repeated passes visit chunks at most once and in queue order; after k passes min(k*B, n) of the n waiting chunks are gone, and none is left iff k*B >= n. |
| LedgerQueue.DrainedRecords | connectors/core/ledger.py:1156-1167 | When the queue is empty a record is fully processed iff each of its live chunks was done, or pending under a committed record, beforehand. |
| Ledger.ConnectorLedger.RecordVersion | connectors/core/ledger.py:1032-1056 | Returns the latest number when the hash repeats, else appends the next one; no version row changes or goes. |
| Ledger.ConnectorLedger.UpsertRecord | connectors/core/ledger.py:883-898 | Sets hash, uid, status and time; inserts with priority 100 and no updates, or bumps the update count and raises the priority to at most 300. |
| Ledger.ConnectorLedger.Commit | connectors/core/ledger.py:867-902 | A completed commit is the upsert followed by the version record. |
| Ledger.ConnectorLedger.CommitDelete | connectors/core/ledger.py:1671-1675 | Removes the record, all its chunks and all its edges, keeping every other record and the version history. |
| Ledger.ConnectorLedger.RecordEdgesBatch | connectors/core/ledger.py:1635-1645 | Adds exactly the edges given, each once. |
| LedgerVersions.RecordingExtends | connectors/core/ledger.py:1032-1056 | Recording a hash extends a gap-free history 1..n exactly when it differs from the last one, and returns the history's length. |
| LedgerVersions.HistoryIsCollapse | connectors/core/ledger.py:867-902 | Over any run, commits crashing or passing each other between their two transactions and deletes included, the versions of a record are 1..n and spell the recorded hashes with consecutive repeats removed. |
| LedgerVersions.NoRepeats | connectors/core/ledger.py:1039-1041 | Neighbouring versions differ, so the version number counts real changes. |
| LedgerVersions.CurrentIsLatestVersionIff | connectors/core/ledger.py:867-902 | Over any run, while a record is present its content hash is its latest version iff the last commit to reach its second transaction carried the hash of the last to reach its first. |
| LedgerVersions.CompletedCommitIsLatest | connectors/core/ledger.py:867-902 | After any run, a commit whose transactions follow one another leaves the record at its latest version. |
| LedgerVersions.InterleavedCommitsDiverge | connectors/core/ledger.py:882-902 | Two commits of one record, the second passing the first between its transactions, leave hash and latest version different. |
| LedgerVersions.PriorityCountsCommits | connectors/core/ledger.py:883-898 | After n commits since insertion the priority is 100 if n = 1, else min(300, 198 + n), and the update count is n - 1. |
| Ledger.ConnectorLedger.AdoptionCandidates | connectors/core/ledger.py:1468-1519 | Exactly the refused shapes that are not dismissed, not already allowed, and meet both thresholds on non-tautological refusals, each once with its counts, by documents and then facts descending. |
| LedgerAdoption.CandidateIff | connectors/core/ledger.py:1468-1519 | A shape is a candidate iff it was refused often enough and in enough documents with both ends named, different up to case and a relation, and is neither in the table nor dismissed under its arrow notation. |
| LedgerAdoption.TautologyIsNoCandidate | connectors/core/ledger.py:1473-1489 | A shape refused only as a tautology or without both names is no candidate, however low the bar. |
| Ledger.ConnectorLedger.AdoptShapes | connectors/core/ledger.py:1521-1548 | Adds the absent shapes under the batch and records the batch, or does nothing at all. |
| Ledger.ConnectorLedger.Unadopt | connectors/core/ledger.py:1550-1572 | Removes exactly the batch's rows and returns its shapes once; a second call changes and returns nothing. |
| LedgerAdoption.OneDocumentIsNotEnough | connectors/core/ledger.py:1473-1478 | However often one document repeats a statement, its shape is no candidate under a bar of two documents. |
| LedgerAdoption.TwoDocumentsAreEnough | connectors/core/ledger.py:1473-1519 | Two genuine refusals of a shape in two documents make it a candidate under a bar of two, unless it is dismissed or in the table. |
| LedgerAdoption.UndoRestores | connectors/core/ledger.py:1550-1572 | Undoing an adoption restores the axiom table exactly, for any shapes, also ones already present. |
| LedgerAdoption.UndosCommute | connectors/core/ledger.py:1550-1572 | Undos of different batches commute and a second undo does nothing. |
| LedgerAdoption.RunKeepsExact | connectors/core/ledger.py:1521-1572 | Every run, seedings included, keeps adopted rows and standing batches in exact correspondence. |
| LedgerAdoption.RunKeepsBase | connectors/core/ledger.py:1393-1419 | Rows no batch owns are never changed or removed, and grow exactly by the shapes seedings found absent. |
| LedgerAdoption.AxiomsAreSeedPlusStanding | connectors/core/ledger.py:1393-1572 | Over any run of seedings, adoptions, undos, dismissals and drop rewrites the axioms are the rows there at first from code and humans, the shapes seedings planted, and the shapes of precisely the batches not undone, all disjoint from the last. |
| LedgerAdoption.SeededSurviveIff | connectors/core/ledger.py:1393-1419 | Every seeded shape is in the table after every continuation iff each was planted by some seeding or unowned in the table before. |
| LedgerAdoption.SeedOfAdoptedIsLost | connectors/core/ledger.py:1393-1572 | Adopting a shape, seeding it and undoing the adoption leaves it out. |
| LedgerAdoption.DismissalLasts | connectors/core/ledger.py:1430-1489 | A dismissal survives every run, and a dismissed shape that was absent is in the table later iff a seeding put it there: no adoption ever does. |
| LedgerAdoption.AdoptionIsExactIff | connectors/core/ledger.py:1521-1548 | One adoption keeps the correspondence exact iff none of its shapes is already in the table. |
| LedgerAdoption.StaleCandidatesBreakIt | connectors/core/ledger.py:1521-1572 | Two batches adopting one shape from the same candidate list: undoing the first removes it although the second stands. |
| Ledger.ConnectorLedger.RequeueChunksForShapes | connectors/core/ledger.py:1584-1611 | Sets to pending exactly the live chunks that had one of the shapes refused, and returns how many. |
| LedgerRequeue.RequeueThenDrain | connectors/core/ledger.py:1584-1611 | After a requeue, k passes with budget B empty the semantic queue iff k*B covers what was waiting plus the reopened chunks of committed records, and no other chunk is visited. |
| LedgerRequeue.RequeuedRecordRecovers | connectors/core/ledger.py:1600-1611 | A fully processed committed record stays so through a requeue iff none of its chunks is reopened, and is so again once the queue is drained. |
| LedgerRequeue.CandidateReopens | connectors/core/ledger.py:1584-1591 | A candidate shape was refused in some chunk, and if that chunk is still live and its record committed it waits in the queue after the requeue. |
| Ledger.ConnectorLedger.RecordIngestionAssessments | connectors/core/ledger.py:1235-1322 | Retires the chunk's open findings with time and reason, upserts each flagged judgement with all its columns and its evidence, and returns the written keys, which are then exactly the open findings of the chunk. |
| Ledger.ConnectorLedger.DeleteFindingsWithPrefix | connectors/core/ledger.py:1367-1389 | Removes and returns exactly the findings located under the prefix, and with them the evidence under it. |
| LedgerFindings.KeysAgreeIff | connectors/core/ledger.py:1265-1286 | Two judgements share a finding iff provider, action and topic slug agree, whatever their records. |
| LedgerFindings.SlugIsWords | connectors/core/ledger.py:1279-1284 | The slug of a topic is its maximal runs of a-z and 0-9 joined by dashes, cut at 100 characters, or "finding" if it has none. |
| LedgerFindings.PlainTopics | connectors/core/ledger.py:1279-1284 | Words of a-z and 0-9 are their own slug and any other character between two of them becomes a dash. |
| LedgerFindings.ProviderIsFirstPart | connectors/core/ledger.py:1265-1286 | The provider in a finding key is the part of the record key before its first colon. |
| LedgerFindings.OpenAreWritten | connectors/core/ledger.py:1267-1321 | After the call the open findings at the chunk are the written keys, and findings neither retired nor written are unchanged. |
| LedgerFindings.JudgementIsRecorded | connectors/core/ledger.py:1276-1321 | The last flagged judgement with a key leaves an open finding at this record and chunk with its kind, severity, title, summary, reasoning, confidence and properties, defaults for what is missing, the creation time of the first with the key, and its excerpt as evidence for the record. |
| LedgerFindings.UnraisedIsRetired | connectors/core/ledger.py:1266-1275 | A finding no judgement raises becomes stale now if it was open at this chunk, and otherwise stays as it is. |
| LedgerFindings.DeleteIsByPrefix | connectors/core/ledger.py:1367-1389 | For a prefix without a backslash exactly the findings whose record key has it go, and their records' evidence iff there is such a finding. |
| LedgerFindings.RunIsSound | connectors/core/ledger.py:1263-1389 | Over any run a finding is stale iff stale_at and its reason are set, and has an evidence row for its current record naming its current chunk, also after moves and prefix deletes. |
| LedgerFindings.OpenMatchesHistory | connectors/core/ledger.py:1263-1389 | Over any run the open findings of a chunk are those its last pass raised, less those later passes elsewhere took over, none once its prefix was deleted. |
| LedgerFindings.EvidenceMatchesHistory | connectors/core/ledger.py:1263-1389 | Over any run the findings with evidence for a record are those ever raised there since the last delete over it that found a finding. |
| LedgerFindings.PrefixIsCleanIff | connectors/core/ledger.py:1372-1388 | After any run a prefix delete leaves no evidence under the prefix iff a finding was still located there or none had been raised there since such a delete. |
| LedgerFindings.MovedTopicLeavesEvidence | connectors/core/ledger.py:1367-1389 | A topic raised under one record and then another leaves evidence of the first behind when the first is deleted. |
| Ledger.ConnectorLedger.CreateReview | connectors/core/ledger.py:1808-1840 | Inserts a pending row under a new id, or nothing when the identity was rejected. |
| Ledger.ConnectorLedger.ApproveReview | connectors/core/ledger.py:1864-1879 | Approves a pending row, names who and when, and returns it; any other id is left as it is. |
| Ledger.ConnectorLedger.RejectReview | connectors/core/ledger.py:1881-1905 | Rejects a pending row, caches its identity, and returns it; any other id is left as it is. |
| LedgerReviews.CacheIsRejectedIdentities | connectors/core/ledger.py:1796-1905 | Over any run an identity is in the cache iff some review with it is rejected. |
| LedgerReviews.DecidedIsFrozen | connectors/core/ledger.py:1864-1905 | A decided review never changes again; a pending one keeps everything but its decision; no review disappears. |
| LedgerReviews.DecidedAtMostOnce | connectors/core/ledger.py:100-105 | A review is decided at most once over any run, and exactly once iff it is no longer pending. |
| LedgerReviews.StateTellsTheDecision | connectors/core/ledger.py:1864-1905 | Over any run a review is approved iff the event that found it pending was an approval, rejected iff it was a rejection, by whom and when that event says; without one it is pending. |
| LedgerReviews.RejectedIdentityIsClosed | connectors/core/ledger.py:1808-1827 | Once an identity is rejected no run creates another row with it. |
| LedgerReviews.ApprovedAfterRejectionIff | connectors/core/ledger.py:1808-1879 | The cache stops new rows only: a rejected identity can still come to be approved iff another row with it is pending. |
| Ledger.ConnectorLedger.CreateLinkCandidate | connectors/core/ledger.py:2143-2176 | Inserts a pending row unless the triple has one, and returns the id of the triple's row. |
| Ledger.ConnectorLedger.ApproveLinkCandidate | connectors/core/ledger.py:2211-2230 | Makes a pending candidate approved, decided now, and returns it; any other id is left as it is. |
| Ledger.ConnectorLedger.RejectLinkCandidate | connectors/core/ledger.py:2232-2250 | Makes a pending candidate rejected, decided now, and returns it, so a re-proposal finds it rejected; any other id is left as it is. |
| LedgerReviews.TripleHasOneRow | connectors/core/ledger.py:2147-2164 | Once proposed, a triple has one row over every run: re-proposals find its id and reset no decision. |
| LedgerReviews.LinkDecidedAtMostOnce | connectors/core/ledger.py:2211-2250 | A candidate is decided at most once over any run, and exactly once iff it is no longer pending. |
| LedgerReviews.LinkStateTellsTheDecision | connectors/core/ledger.py:2211-2250 | Over any run a candidate is approved iff the event that found it pending was an approval, rejected iff it was a rejection; without one it is pending. |
| Ledger.ConnectorLedger.PurgePrefix | connectors/core/purge.py:53-85 | Refuses the empty prefix, does nothing without a ledger; otherwise removes the records and chunks whose lower-cased key matches the pattern and returns the number of records removed. |
| Ledger.PurgeSelectsPrefix | connectors/core/purge.py:57-60 | For a prefix whose only capitals are ASCII those are exactly the keys with that prefix up to ASCII case. |
| LikePrefix.FullEscapingIsExact | connectors/core/purge.py:66-68 | With backslash, % and _ escaped the pattern matches a key iff the key starts with the prefix, for every prefix. |
| LikePrefix.StartsWithMeans | connectors/core/purge.py:57-60 | Having a prefix means being an extension of it, or, where the engine folds case, once both are lower-cased. |
| Text.LowerIsAscii | connectors/core/purge.py:57-60 | LOWER() turns the 26 ASCII capitals into small letters and changes nothing else. |
| LikePrefix.ShortEscapingIsExactIff | connectors/core/ledger.py:1661-1669 | The ledger's escaping matches exactly the keys with the prefix iff the prefix has no backslash. |
| LikePrefix.PurgePatternMatches | connectors/core/purge.py:66-84 | LOWER(key) matches the lower-cased pattern iff it starts with the prefix as Python lower-cases it. |
| LikePrefix.PurgeIsExactIff | connectors/core/purge.py:57-84 | The purge deletes exactly the keys with the prefix up to ASCII case iff Python lower-cases the prefix as LOWER() does. |
| LikePrefix.AccentedPrefixMissesItself | connectors/core/purge.py:66-84 | A prefix with a capital E-acute does not match itself. |
| SqlTranslate.TranslateKeepsMeaning | storage/sql_backend.py:162-195 | psycopg reads the translation of any text as the original characters with a slot at exactly each ? outside quoted literals, and never rejects it. |
| SqlTranslate.UnquotedCharacter | storage/sql_backend.py:179-195 | Outside quotes a question mark becomes %s, a percent sign is doubled only when there are parameters, and any other character is kept. |
| SqlTranslate.QuotedText | storage/sql_backend.py:162-195 | A text in single or double quotes comes through with its question marks, its percent signs doubled only when there are parameters. |
| SqlTranslate.PercentIsDoubled | storage/sql_backend.py:179-195 | Doubling turns each percent sign into two and keeps the rest. |
| SqlTranslate.NoParamsUntouched | storage/sql_backend.py:179-195 | Without parameters the text comes through unchanged iff it has no ? outside literals. |
| SqlScript.SplitScript | storage/sql_backend.py:198-222 | The scanner returns the stripped, non-blank pieces between top-level semicolons. |
| SqlScript.StatementIsPiece | storage/sql_backend.py:198-222 | Every statement is one of the pieces without its outer whitespace, trimmed and not empty. |
| SqlScript.DroppedIffBlank | storage/sql_backend.py:211-220 | A piece is dropped iff it holds nothing but whitespace. |
| SqlScript.CutIsFaithful | storage/sql_backend.py:198-222 | Joining the pieces with semicolons gives the text back. |
| SqlScript.CutIsMaximal | storage/sql_backend.py:198-222 | Every cut is at a semicolon outside quotes and no such semicolon is left in a piece. |
| SqlScript.CutsAtSemicolon | storage/sql_backend.py:198-222 | A text without quotes and semicolons is a piece up to the next semicolon or the end. |
| SqlScript.QuotedStaysWhole | storage/sql_backend.py:204-210 | What single or double quotes enclose stays in one piece, semicolons included. |
| SqlScript.OuterSpaceGoes | storage/sql_backend.py:211-220 | Blanks, tabs and line ends around a statement go, and a piece of nothing else is no statement. |
| SqlScript.SplitUndoesJoin | storage/sql_backend.py:198-222 | Splitting the join of trimmed, quote-balanced statements without top-level semicolons returns them. |
| SqlScript.SplitTerminated | storage/sql_backend.py:413-416 | The same for a script that ends with a semicolon. |
| SqlScript.MasksAgree | storage/sql_backend.py:162-222 | The splitter and the translator's literal pattern mark the same characters as quoted iff every quote is closed. |
| PgSession.PgConnection.Execute | storage/sql_backend.py:369-411 | A write the server fails is undone alone and the transaction goes on; a SELECT or WITH it fails aborts it; a statement the driver refuses changes nothing; in an aborted transaction everything fails. |
| PgSession.PgConnection.ExecuteMany | storage/sql_backend.py:381-411 | A batch is applied row by row under one savepoint: none of it stays when the server fails a row, the rows before it when the driver refuses one; an empty batch does nothing. |
| PgSession.PgConnection.Exit | storage/sql_backend.py:438-446 | Commits on success and rolls back on error; committing an aborted transaction rolls back. |
| PgSession.TransactionRefinesSqlite | storage/sql_backend.py:369-411 | While the server fails no SELECT or WITH, and no batch after it changed the database, a whole transaction gives the rows, errors and committed database SQLite would give; refusals by the driver are free. |
| PgSession.SameAsSqliteIff | storage/sql_backend.py:369-411 | At no point of a transaction can a statement tell it from SQLite iff every failure in it is of that harmless kind. |
| PgSession.FailedReadLosesAll | storage/sql_backend.py:391-446 | Once the server has failed a statement that looks like a read, the commit writes nothing, whatever follows. |
| PgSession.HalfDoneBatchDiffers | storage/sql_backend.py:381-388 | A batch inserting 2 and 1 into a table holding 1 fails on both; SQLite keeps the 2, the shim does not. |
| PgSession.RefusedRowKeepsTheRest | storage/sql_backend.py:400-411 | With a second row the driver refuses, both keep the first. |
| PgPool.SocketPool.OpenRaw | storage/sql_backend.py:254-278 | Takes the newest idle socket without a transaction, closing those it passes over, or opens a new one. |
| PgPool.SocketPool.ReleaseRaw | storage/sql_backend.py:281-291 | Rolls back, then keeps the socket only while the pool has room; a closed one is dropped. |
| PgPool.NewestCleanIsReused | storage/sql_backend.py:254-278 | A checkout takes the newest idle socket without a transaction, closes the newer ones, keeps the older ones and opens none. |
| PgPool.NoneCleanOpensNew | storage/sql_backend.py:254-278 | Without such a socket all idle ones are closed and one new socket is opened. |
| PgPool.ReleasedIsNext | storage/sql_backend.py:281-291 | A socket given back while there is room is what the next checkout gets, without a transaction; without room it is closed. |
| PgPool.NoSocketIsShared | storage/sql_backend.py:245-291 | Over any run of checkouts, returns and wire events no two connections hold one socket, a held socket is not idle, the pool keeps its size, and the next checkout gets a free socket without a transaction. |
| RateLimiter.Client.constructor | connectors/bitbucket/api.py:183-201 | Whatever the configuration, the interval bounds are ordered, the client starts at the lower one, and there is at least one attempt. |
| RateLimiter.Client.WaitForRequestTurn | connectors/bitbucket/api.py:210-220 | However early or late its naps end, releases at the first reading of the clock that the gap and any cooldown allow - at once if they already do, on time once it naps as asked - and reserves exactly the next gap. |
| RateLimiter.Client.SetCooldown | connectors/bitbucket/api.py:222-227 | Extends the block to now plus the wait, never shortens it. |
| RateLimiter.Client.ApplyRateLimit | connectors/bitbucket/api.py:229-239 | Blocks, slows by half or to the wait asked for, within the bounds, and resets the streak. |
| RateLimiter.Client.RecordSuccess | connectors/bitbucket/api.py:241-249 | Speeds up by a tenth, not below the minimum, after each twenty successes in a row. |
| RateLimiter.Client.Request | connectors/bitbucket/api.py:274-316 | Whatever other tasks do to the pace meanwhile, sends between one and max_retries requests, up to the first attempt that must end the loop; that attempt decides the answer, a response never has status 400 or more, the code after the loop is unreachable, each retry waits its turn after the reply before it, and the pace has gone through exactly the sections of these attempts. |
| RateLimiter.OutcomeDecides | connectors/bitbucket/api.py:274-316 | The last attempt, a status that is not transient, and a 429 whose wait is too long end the loop; below 400 the response is returned, 401 is unauthorized, 429 rate limited, any other a failure, and a transport error a network failure; the wait is what the server asked, or 2^k up to 30 s after a transport error. |
| RateLimiter.RetriesWait | connectors/bitbucket/api.py:274-310 | Every retry of a request is released no earlier than the reply before it plus the wait the server asked for, or 2^k up to 30 s after a transport error. |
| RateLimiter.ReactionIs | connectors/bitbucket/api.py:284-314 | A 429 throttles even when it is the last attempt, a returned response counts as a success, other transient failures and transport errors only cool down before another attempt, and the rest leave the pace alone. |
| RateLimiter.ReadingIsSum | connectors/bitbucket/api.py:210-220 | While naps last the clock reads the start plus their total. |
| RateLimiter.ThrottleSlows | connectors/bitbucket/api.py:229-239 | A 429 makes the gap at least 1.5 times as long and at least 1.1 times the wait asked for, as far as the ceiling allows and no longer than one of these, and blocks exactly until the later of the old block and the wait. |
| RateLimiter.GapHoldsForTwenty | connectors/bitbucket/api.py:241-249 | While fewer than twenty successes have come since the streak began and no 429, nothing any task does changes the gap. |
| RateLimiter.TwentiethSpeedsUp | connectors/bitbucket/api.py:241-249 | The twentieth success shortens the gap by a tenth, not below the minimum, and starts a new streak. |
| RateLimiter.RunStaysWithin | connectors/bitbucket/api.py:210-249 | In every reachable state the interval is within its bounds, and neither the block nor the next release time moves back. |
| RateLimiter.ReleasesAreSpaced | connectors/bitbucket/api.py:210-220 | Over every interleaving, consecutive releases are at least the interval in force at the earlier one apart. |
| RateLimiter.RateIsBounded | connectors/bitbucket/api.py:210-220 | Releases i and j are at least j - i minimum intervals apart, however many tasks share the client. |
| RateLimiter.CooldownIsHonoured | connectors/bitbucket/api.py:222-239 | No release ordered after a cooldown or a 429 precedes the end of the wait it asks for. |
| CommitPages.Commits | connectors/bitbucket/api.py:548-572 | Returns the commits with a message among the first `limit` of the whole history, reading no page beyond the first that reaches the limit. |
| CommitPages.ReportedIsFilter | connectors/bitbucket/api.py:561-572 | The report is taken commit by commit, in order, and holds exactly the commits with a message. |
| CommitPages.ReportedOne | connectors/bitbucket/api.py:561-572 | A single commit is reported iff it has a message. |
| CommitPages.SliceIsPrefix | connectors/bitbucket/api.py:556-562 | The commits considered are the first `limit`, none for a negative limit, all if there are fewer. |
| CommitPages.CappedIsExactIff | connectors/bitbucket/api.py:527-560 | The flag says whether more commits exist, except iff exactly `limit` are in hand and all pages left unread are empty. |
| CommitPages.EmptyPageAtTheLimit | connectors/bitbucket/api.py:555-560 | One commit, an empty page linked after it and a limit of one raise the flag although nothing is left. |
| FieldHistory.FieldIntervals | connectors/jira/api.py:352-381 | The loop with its cursors and final filter computes the interval index, of which the lemmas below say what each change contributes, and the filter finds nothing to drop; a field that never changed gives one open interval iff the creation time is known and the current value has an id or a name. |
| FieldHistory.IndexIsChained | connectors/jira/api.py:370-381 | For sorted changes the intervals are in order, do not overlap, and only the last is open. |
| FieldHistory.HistoryIsExact | connectors/jira/api.py:348-381 | At every time from creation on exactly one interval contains it iff replaying the whole changelog up to then, changes of other fields and without a time passed over, gives a value, and carries that value - iff there is a change or a creation time to start from, or no current value. |
| FieldHistory.ShowsLatestChange | connectors/jira/api.py:352-381 | From any timed change of the field on until the next one, exactly one interval shows, with what the change led to, or none if that has neither id nor name. |
| FieldHistory.ShowsFirstValue | connectors/jira/api.py:359-381 | From creation until the first change exactly one interval shows, with what that change started from, or none. |
| FieldHistory.EveryStretchIsListed | connectors/jira/api.py:359-381 | Between any two consecutive changes of the field, at the same time too, and up to the first, there is the interval from one to the other with the value between. |
| FieldHistory.NothingElseIsListed | connectors/jira/api.py:359-381 | There are as many intervals as changes that led to a value, and one more if the first started from one. |
| FieldHistory.OpenIntervalIsCurrentIff | connectors/jira/api.py:359-381 | The last timed change of the field in the changelog alone decides the end: the index ends open since that change with what it led to, or closed if that has neither id nor name, so it shows the current value iff that change leads to it. |
| FieldHistory.OpenIntervalIsStale | connectors/jira/api.py:359-381 | One change that does not lead to the current value: the open interval shows what it led to. |
| JiraSubtree.SubtreeKeys | connectors/jira/api.py:275-302 | Exactly the keys at most max_depth child steps from the root, each once, sorted, on any graph and any answer order. |
| JiraSubtree.Exhausted | connectors/jira/api.py:275-302 | Once a level adds nothing, everything reachable at any depth has been found. |
| NotionPages.Worklist.Offer | connectors/notion/api.py:194-206 | Queues a page that is neither archived nor known, and nothing twice, whether or not it can be fetched by id. |
| NotionPages.Worklist.EnqueueChild | connectors/notion/api.py:208-219 | Marks a child page as considered, and queues it exactly when it was unknown and can be fetched. |
| NotionPages.Worklist.Expand | connectors/notion/api.py:184-191 | Considers all a rendered page mentions, and queues of what was unknown exactly the pages that can be fetched or are listed without being a child block too. |
| NotionPages.FetchPages | connectors/notion/api.py:152-219 | Terminates on every page graph and renders each page at most once, exactly the search results and the pages whose first mention by a rendered page was not a child block that could not be fetched; fails only when a wanted page cannot be read. |
| NotionPages.RenderedWasOffered | connectors/notion/api.py:152-219 | Every rendered page was listed unarchived by the search or by a database of a rendered page, or is a child block of one and was fetched unarchived. |
| NotionPages.OfferedIsRendered | connectors/notion/api.py:152-219 | Every unarchived search result, every child block of a rendered page that can be fetched, and every unarchived row of its databases that can be fetched or is nowhere a child block is rendered. |
| NotionPages.MissingIff | connectors/notion/api.py:194-219 | A page some rendered page mentions is missing iff the first to mention it has it as a child block, it cannot be fetched, and it is no search result. |
| NotionPages.FetchableReachedIsRendered | connectors/notion/api.py:166-192 | Whatever can be reached from a search result through fetchable pages is rendered, without any condition. |
| NotionPages.CoverageIsCompleteIff | connectors/notion/api.py:166-219 | Exactly the wanted pages are rendered iff no listed page was first met as a child block whose GET failed. |
| NotionPages.UnambiguousCoverageIsExact | connectors/notion/api.py:166-219 | In a workspace where no unfetchable page other than a search result is both listed by and a child block of wanted pages, exactly the wanted pages are rendered. |
| NotionPages.DetourIsMissed | connectors/notion/api.py:184-219 | A search result with a child block x and a row x, x answering no GET and linking to a fetchable y: x and y are wanted and neither is rendered. |
| NotionPages.DetourResult | connectors/notion/api.py:184-219 | There the search result alone is what a sync renders. |
| NotionPages.ConsistentCoverageIsExact | connectors/notion/api.py:152-219 | While listed pages can be fetched by id, exactly the search results and, if asked for, everything linked from them is rendered. |
| NotionPages.SearchResultsOnly | connectors/notion/api.py:178-183 | Without child pages exactly the search results are rendered. |
| FkOrder.Visitor.Visit | scripts/migrate_sqlite_to_postgres.py:217-224 | Terminates on cycles; keeps every table placed once with parents first except inside a cycle, only appends, and leaves the visiting set as it was. |
| FkOrder.CopyOrder | scripts/migrate_sqlite_to_postgres.py:204-228 | On every dependency graph returns each table exactly once; a parent follows its child only when they depend on each other. |
| FkOrder.RespectsKeysIffAcyclic | scripts/migrate_sqlite_to_postgres.py:204-228 | The order puts every referenced parent before its child iff the graph without self references is acyclic. |
| Calibration.ComputeEce | scripts/measure_review_precision.py:249-287 | For every input the error is the sum over the reported bins of their share of the pairs times their gap, and fails iff there are pairs but no bins; bin i of n holds the pairs with confidence from i/n to below (i+1)/n, the first and last also what lies outside [0, 1]; each bin reports its ends, count, averages and their distance, and a mean within [0, 1] lies between the ends. |
| Calibration.BinsPartition | scripts/measure_review_precision.py:262-266 | Every pair is in its own bin as often as it occurs, and in no other. |
| Calibration.BinOfIff | scripts/measure_review_precision.py:263-266 | A pair's bin is i iff its confidence is at least i/n, or i is the first, and below (i+1)/n, or i is the last. |
| Calibration.MeanInBin | scripts/measure_review_precision.py:268-285 | The mean confidence of a bin lies in the bin's own interval, unless it lies outside [0, 1]. |
| Calibration.SumsAdd | scripts/measure_review_precision.py:277-279 | The bin averages are of confidences and of one for each approval. |
| Calibration.AtLeastOverallGap | scripts/measure_review_precision.py:249-287 | The error is at least the gap between mean confidence and approval rate overall. |
| Calibration.AtMostMeanError | scripts/measure_review_precision.py:249-287 | The error is at most the mean of abs(confidence - outcome), hence at most 1 for confidences in [0, 1]. |
| Calibration.FineBinInCoarse | scripts/measure_review_precision.py:263-266 | k*n bins refine n bins, the clamped and the top bin included. |
| Calibration.RefiningNeverLowers | scripts/measure_review_precision.py:249-287 | Splitting every bin into k never lowers the error. |
| OAuthStore.Store.CreateState | connectors/core/oauth_store.py:174-186 | Deletes this provider's expired states and inserts the new one, or, if its hash is still there, changes nothing. |
| OAuthStore.Store.ConsumeState | connectors/core/oauth_store.py:188-198 | Removes the state and returns its session iff it was there and not expired. |
| OAuthStore.StateIsSingleUse | connectors/core/oauth_store.py:188-198 | Over any interleaving a state is redeemed at most as often as it was created. |
| OAuthStore.RedeemedMeansCreated | connectors/core/oauth_store.py:174-198 | A successful callback gets the session that created the state, within its time to live and with no callback for it in between. |
| OAuthStore.CreatedIsRedeemable | connectors/core/oauth_store.py:174-198 | Conversely a created state no callback has used is good for its session up to and including the end of its lifetime, whatever is created and cleaned up meanwhile, and no longer. |
| OAuthStore.CleanupIsInvisible | connectors/core/oauth_store.py:178-181 | While the clock does not run backwards, deleting expired rows changes no callback's outcome. |
| OAuthStore.Store.CreateRun | connectors/core/oauth_store.py:378-390 | Inserts a queued run iff its id is new and the source has no active run for that graph; keeps at most one active run per source and graph. |
| OAuthStore.Store.SetRun | connectors/core/oauth_store.py:392-416 | Updates the run with its end time and result, and the source it belongs to if it ends, unless that would make a second active run, which is refused without effect. |
| OAuthStore.BlockedIff | connectors/core/oauth_store.py:392-416 | A run under way can always be updated; an ended one cannot be made active again iff a run of its scope is active. |
| OAuthStore.Store.SaveSource | connectors/core/oauth_store.py:294-310 | Inserts or renames the source, keeping what is known of its last sync. |
| OAuthStore.Store.FailOrphanedRuns | connectors/core/oauth_store.py:354-376 | Fails and ends exactly the source's active runs not in the live set, over all graphs, leaves every run of another source, connection or provider as it is, and returns how many. |
| OAuthStore.SweptIsBusyIff | connectors/core/oauth_store.py:354-390 | After the sweep a source is busy for a graph iff one of the live runs is still active there. |

## Left out

- I/O: HTTP, OAuth exchanges, encryption, routes, logging, the graph store, embeddings and the LLM. Provider
  replies are parameters: sequences of pages or attempts, a search function, a workspace.
- Timestamps are points on a line, one clock reading per call; `IsoTime` justifies comparing them as text.
- Each ledger and OAuth method is one atomic transaction, except that a commit is two. Interleavings inside a
  transaction are modelled for Postgres claims only.
- Jobs.ConnectorJobStore.LeaseFirst: under SKIP LOCKED it takes the rows it may see as a parameter; in
  `JobRuns` a Postgres claim may lease any claimable row it can lock, so no order among skipped rows is claimed there.
- Uniqueness of uuid worker names, batch ids and state tokens: worker names are distinct by construction, a
  taken batch id or token is refused as the primary key would.
- Ledger.ConnectorLedger.AdoptionCandidates: the example text of a candidate is not modelled.
- LikePrefix.PurgePatternMatches: Python's lower-casing is character by character, so the context rule for a
  final sigma is not modelled; the engine's LOWER() is ASCII only.
- Chunk triage is not modelled, and the columns of an axiom that only travel are abbreviated to one; statuses are
  closed enumerations; kinds in extraction drops are never NULL.
- `find_moved_from`, coverage, settings, aliases and merge traces: lookups and counters.
- PgSession.PgConnection.Execute: the PRAGMA and BEGIN statements the shim swallows are not modelled, nor are row counts.
- DDL type rewriting, PRAGMA emulation, comments that contain quotes, schema naming.
- The retry delay parsed from response headers and the request semaphore: a delay is part of each attempt.
- NotionPages.FetchPages: page metadata, rendering and its nesting limit are not modelled.
- JiraSubtree.SubtreeKeys: JQL is a function that answers a frontier with its children.
- CommitPages.Commits: pages are a finite list.
- Calibration.ComputeEce: over the reals, so rounding is not modelled.
- GitHub's commit listing, whose page size changes while the page number advances.
