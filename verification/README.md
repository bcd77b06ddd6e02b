# Verified model of a DMARC reporting backend

This project models the parts of the backend whose correctness depends on many steps together, and proves what holds
over all inputs, runs and reachable states:

- **The work queue** (`JobTable`, `JobProtocol`, `JobFairness`, `JobDelivery`, `JobOverrun`, `LeaderCadence`,
  `JobRescue`): a lease protocol on one table. Any number of consumers, leaders and API processes enqueue, claim,
  complete, fail, crash, reclaim and prune.
- **Keyset pagination** (`Pagination`, `TlsReports`, `DayReports`): a walk of pages against the table it replaces, while
  the table changes, with filters after the fetch and grouping on top.
- **Domains and attribution** (`Names`, `Normalization`, `Attribution`, `DomainForest`, `DomainRegistry`,
  `DomainVerification`, `DomainSetup`): the spelling and matching of names, the forest of registered domains, who becomes
  verified, and the incremental re-matching of records against a full one.
- **Report trust and roll-ups** (`ReportTrust`, `ReportVisibility`, `Rollups`, `RollupSums`, `Services`, `ServiceFacts`,
  `ServiceOrder`, `Breakdowns`): which copy of a report is stored and counted, what each sum counts, and the independently
  written totals that must agree.
- **The smaller pieces** (`RateLimit`, `RateLimitMemory`, `Versions`, `ReleaseOrder`, `AzureUpdate`, `EnvFile`,
  `ImageTag`, `ActionQueue`,
  `ActionUrgency`): the sliding window, release order and update runs, the two editors, the action-item merge.

`Wrappers`, `Collections` and `ReportTypes` hold shared types, selection by key and stable sorting.
`dafny verify dfyconfig.toml` checks everything.

## How the source is modelled

- Every SQL statement is one atomic step on finite maps; one tenant's rows are the whole table. Where the source
  changes rows in place there is a class whose methods do so, each proved equal to a function of the old state; the
  properties are lemmas about those functions and about runs of them.
- A job claim skips a set of rows other transactions hold (`FOR UPDATE SKIP LOCKED`). A statement the unique index
  refuses changes no row. A uuid is never drawn twice.
- Clocks are numbers: whole seconds for jobs and the leader, microseconds for rate limits. Consumers of one process share
  a worker id, so `locked_by` identifies nobody; the model tracks holders itself.
- A domain's name stands for its row (names are unique and never change). Text is ASCII: `strip()` removes space, tab,
  newline and return, `lower()` maps A to Z. The public-suffix lookup, the detected names, DNS answers and the identity of
  an IP are parameters.
- Percentages are exact rationals rounded half to even at one decimal.
- `GROUP BY` gives its rows in any order: a query's result is any listing with one row for each key that occurs.
- A release ships a number of migrations, in one chain. `alembic upgrade head` leads from any revision the release ships to
  its last one, in one transaction, and fails on a revision it does not know.

## Where the code does less than its description

Each is a lemma with a concrete case or an exact condition:

- The timing assumption on `worker_job_stale_seconds` is needed, and needed only when a reclaim runs: the queue's
  invariant survives a run exactly if no reclaim finds a holder past its lease (`LeaseSafety`). Otherwise one handler that
  is a second late leads to two holders of one job and to an update the unique index refuses (`OverrunBreaksLease`).
- The resweep compares the raw `header_from`, while matching normalizes it: headers with capitals or a final dot are
  missed (`AddExact`, `RemoveExact`, `NeverMissedExactly`, `FinalDotIsMissed`). Records hidden by the sender check are no
  candidates; they move along only where a shown record has the same header, and come back on the wrong domain exactly
  where none has (`AddThenShow`, `RemoveThenShow`, `HiddenRecordGoesStale`).
- Normalizing a name takes white space off before the final dots and not again after them, so final dots matter exactly
  behind white space (`FinalDotsExactly`, `NormEdges`). A name typed as "b.c", newline, dot passes the check and is
  registered with the newline, and then no name written without one matches it (`AcceptedName`, `NewlineIsRegistered`,
  `NewlineMatchesNothing`); adding it from the detected domains normalizes once more and takes it off.
- A report, unlike a record, keeps an older, less specific domain: after adding names the sweep is exact only if no report
  that has a domain belongs to one of them (`ReportsAddExact`, `ReportKeepsOlderDomain`).
- A page whose anchor row was deleted starts over (`StaleAnchorStartsOver`). The unpaged TLS list is sorted by date alone,
  so it is the paged one in any order of its query only if no two reports shown share a date (`PagedAgreesWithUnpaged`).
- Which keys are visible depends on arrival order where unchecked copies occur (`VisibleExactly`). Every change of the
  sender check but turning it off, relaxing it included, can leave out a key with a copy the new mode counts, because that
  copy was turned away before as a duplicate (`GenuineSurviveExactly`).
- The IP rows come without ORDER BY, yet the order of services of one volume, of IPs of one volume, and how a service
  was matched follow them: the batched query and the single one give the same list in all orders exactly if such ties do
  not occur and each service's IPs were matched one way; all numbers agree always (`MultiAgreesWithSingle`).
- The window holds `limit` hits in any stretch up to its length, closed at one end only, and in nothing longer
  (`WindowIsExact`).
- A rehearsal gets through and changes nothing exactly if all parts are on the api's release
  (`RehearsalChangesNothingExactly`). Behind an update that stopped after the worker it takes the worker back if the newer
  release adds no migration, and fails if it does (`RehearsalMovesWorkerBack`, `WorkerMovesBackExactly`). The schema stays
  ahead of worker and api, and worker, api, updater in order, over every run.
- Strings that differ only by a final newline tie in the version order (`StringsCanTie`); published tags never do.
- `set_env_var` replaces the first line with the key, and readers take the last (`GetAfterSet`).

## Model

| member | source | states |
|---|---|---|
| JobTable.JobTable.EnqueueJob | backend/app/repositories/jobs.py:34-58 | inserts a pending row unless an active job has the dedupe key; then the table is unchanged |
| JobTable.JobTable.ClaimOneJob | backend/app/repositories/jobs.py:61-95 | takes a due, unlocked pending row of least run_after and returns its snapshot; returns nothing only if there is none |
| JobTable.JobTable.CompleteJob | backend/app/repositories/jobs.py:98-102 | the row of that id, whoever holds it, becomes done |
| JobTable.JobTable.FailJob | backend/app/repositories/jobs.py:105-124 | back to pending with backoff, or failed at the cap; refused exactly when the unique index would break |
| JobTable.JobTable.ReclaimStalledJobs | backend/app/repositories/jobs.py:127-142 | exactly the stale running rows go back to pending, and the count is their number |
| JobTable.JobTable.PruneFinishedJobs | backend/app/repositories/jobs.py:145-157 | exactly the old done and failed rows go, and the count is their number |
| JobTable.EarliestExists | backend/app/repositories/jobs.py:74-80 | among any candidate rows one has the least run_after, so a claim is stuck only when nothing is runnable |
| JobProtocol.NoStatementRefused | backend/alembic/versions/0023_background_jobs.py:57-64 | while holders own their rows, no step of the protocol ever breaks the partial unique index |
| JobProtocol.StepKeepsOwned | backend/app/repositories/jobs.py:61-142 | every step, a reclaim if it is in time, leaves each live holder its own running row, with the attempts it remembers |
| JobProtocol.StepKeepsAccounts | backend/app/repositories/jobs.py:61-157 | every step keeps attempts equal to the claims made and within the cap plus the reclaims, and loses no job |
| JobProtocol.StepKeepsInv | backend/app/repositories/jobs.py:34-157 | every step keeps the whole invariant, a reclaim if and only if no holder is past its lease |
| JobProtocol.LeaseSafety | backend/app/config.py:192-199 | the invariant holds in every state of a run if and only if each of its reclaims finds all holders within the lease |
| JobProtocol.QueueIsSafe | backend/app/services/jobs/queue.py:76-103 | from the empty table: no two holders of one job, complete and fail hit the row their consumer locked, one active job per key, no job lost but by pruning a finished one, attempts bounded, and without reclaims a failed job was tried exactly its cap |
| JobProtocol.FinishedIsFinal | backend/app/repositories/jobs.py:145-157 | a finished row never changes, and leaves only by a prune after its age ran out |
| JobDelivery.EachStatusHasItsStep | backend/app/repositories/jobs.py:34-142 | a row turns running by a claim of it, done by its holder's success, failed by its holder's failure with no attempt left, pending by being inserted, by a failure with attempts left or by a reclaim past the limit, each if and only if |
| JobDelivery.StepKeepsWork | backend/app/repositories/jobs.py:61-142 | type, payload, key and cap never change, attempts grow by claims alone, and every change stamps updated_at |
| JobDelivery.RowAfter | backend/app/repositories/jobs.py:34-124 | the row an Enqueue inserts is what it asked for, a claim names worker and time, a success clears the error, a failure keeps its first 2000 characters |
| JobDelivery.InsertedExactly | backend/app/repositories/jobs.py:44-58 | a job is inserted if and only if it has no key or no pending or running job has it |
| JobDelivery.ClaimExactly | backend/app/repositories/jobs.py:74-81 | a claim may take a row if and only if it is pending, due, not locked by another transaction, and no such row has been due for longer; there is one whenever any such row is |
| JobDelivery.OtherRowsStay | backend/app/repositories/jobs.py:61-157 | every other row stays as it is, and leaves if and only if a prune finds it finished and too old |
| JobDelivery.RowsAreAsAsked | backend/app/repositories/jobs.py:34-58 | over any run each row carries the work of the Enqueue that inserted it |
| JobDelivery.HandlersGetTheirJob | backend/app/services/jobs/queue.py:76-103 | from the empty table, every handler is handed the type, payload and cap its job was enqueued with and the number of times it was claimed |
| JobDelivery.TallyCounts | backend/app/repositories/jobs.py:61-142 | the claims and reclaims the bounds speak of are the claim steps of the job and the reclaims that took it |
| JobProtocol.ReclaimTakesOverrunOnly | backend/app/repositories/jobs.py:127-142 | a reclaim takes a row from its holder if and only if the holder has overrun the lease |
| JobProtocol.StrandedJobRunsAgain | backend/app/repositories/jobs.py:127-142 | a row whose worker died is runnable right after the first reclaim past the limit |
| JobRescue.StaysStranded | backend/app/repositories/jobs.py:61-157 | nothing but a reclaim past the stale limit touches a running row nobody works on |
| JobRescue.StrandedJobIsRescued | backend/app/workers/scheduler.py:113-137 | whatever the other processes do, while reclaims stay within the lease of live holders, such a job is runnable again within the stale limit, one reap interval and one gap between the leader's rounds |
| JobOverrun.OverrunBreaksLease | backend/app/config.py:192-199 | without the lease: a run with two holders of one job, whose late failure the unique index must refuse |
| JobFairness.BackoffBounds | backend/app/repositories/jobs.py:113 | the delay never shrinks with attempts and stays within 30 and 3600 seconds |
| JobFairness.FailedAttemptWaits | backend/app/repositories/jobs.py:105-124 | after a failed attempt the job is runnable exactly from its backoff on, or parked exactly when its attempts are used up |
| JobFairness.TotalBackoffBound | backend/app/repositories/jobs.py:105-124 | k retries wait at most 30 * (2^k - 1) seconds in all, with equality exactly up to k = 7 |
| JobFairness.WaitingRow | backend/app/repositories/jobs.py:61-142 | no step puts a job in front of a due one, except rows a reclaim gives back |
| JobFairness.BoundedOvertaking | backend/app/repositories/jobs.py:69-82 | while a due job waits, the claims made and the jobs still ahead never exceed the jobs first ahead plus the rows reclaims put back |
| LeaderCadence.Leader.Tick | backend/app/workers/scheduler.py:113-137 | a round enqueues exactly the recurring jobs that are due, up to the operation that raises, and reclaims exactly when due and none raised; what was not reached stays due |
| LeaderCadence.FiresAreSpaced | backend/app/workers/scheduler.py:123-129 | within one process, two enqueues of one recurring job are never closer than its interval |
| LeaderCadence.FiresAreFresh | backend/app/workers/scheduler.py:123-129 | after every round that got past it, the last firing is less than an interval old |
| LeaderCadence.StaleRowsAreReaped | backend/app/workers/scheduler.py:130-134 | past any point in time a reclaim follows within the reap interval plus one gap between rounds |
| Pagination.SortedIsUnique | backend/app/services/pagination.py:65-66 | page order leaves no choice: a set of rows has one listing |
| Pagination.KeysInOrder | backend/app/services/pagination.py:60-66 | descending means falling keys and, for equal keys, falling ids; ascending means rising ones |
| Pagination.PageFacts | backend/app/services/pagination.py:59-70 | a page is ordered, all after its anchor, and what it leaves out lies after its last row and sets has_more |
| Pagination.WalkIsOrdered | backend/app/services/pagination.py:16-70 | whatever changes between pages, anchors excepted, rows come strictly in order and never twice, in both directions |
| Pagination.WalkIsComplete | backend/app/services/pagination.py:16-70 | a finished walk has every row that matched throughout it |
| Pagination.FixedWalk | backend/app/services/pagination.py:54-70 | on a table that stays the same the joined pages are the sorted filtered table, and the walk ends |
| Pagination.WalkIsFullButLast | backend/app/services/pagination.py:54-58 | every page of a finished walk but its last is full |
| Pagination.FullPagesLength | backend/app/services/pagination.py:54-58 | so n rows take n / limit + 1 pages: at most one extra, empty page |
| Pagination.StaleAnchorStartsOver | backend/app/services/pagination.py:59-63 | with the anchor row gone the page is the first page, which continues behind it exactly when no wanted row lies at or before it |
| TlsReports.FetchRowsPage | backend/app/routers/dns_checks.py:157-200 | the filtered rows of a page, with the cursor taken before the filter |
| TlsReports.KeepPagesIsKeepFlat | backend/app/routers/dns_checks.py:192-197 | filtering page by page is filtering the joined pages |
| TlsReports.KeptExactly | backend/app/routers/dns_checks.py:192-197 | without a filter all rows stay, with one exactly those that have a failure detail of that type |
| TlsReports.PagedAgreesWithUnpaged | backend/app/repositories/dns_checks.py:110-160 | the client's joined list and the unpaged list have the same rows and the same date in each place, and are equal for every order of the unpaged query if and only if no two shown reports share a date |
| DayReports.GroupByDay | backend/app/routers/dmarc_reports.py:417-443 | the groups flatten back to the page, neighbours have different dates, and each carries its own rows' totals |
| DayReports.DateExactly | backend/app/routers/dmarc_reports.py:417-418 | a row belongs to the UTC day its time falls in |
| DayReports.EachDateOnce | backend/app/routers/dmarc_reports.py:418 | dates strictly descend over the groups, so none heads two |
| DayReports.DayTotalsAddUp | backend/app/routers/dmarc_reports.py:425-428 | accepted, quarantined and rejected of a day add up to its messages |
| DayReports.ClientCursorIsLastRow | frontend/src/hooks/useDmarcReports.ts:20-24 | the last row of the last day is the last row fetched |
| Names.MatchDomain | backend/app/services/ingestion/domain_matcher.py:8-25 | the loop over the labels finds the closest registered name at or above the name |
| Names.ClosestIsLongest | backend/app/services/ingestion/domain_matcher.py:8-25 | that is the longest registered label suffix of at least two labels, and nothing is found only if there is none |
| Names.MatchFrame | backend/app/services/ingestion/report_writer.py:349-361 | registering or removing a name changes the match of names at or under it only |
| Names.JoinSplit | backend/app/services/ingestion/domain_matcher.py:18-20 | the labels joined are the name |
| Normalization.NormOf | backend/app/services/ingestion/domain_matcher.py:16 | for white space, a core, final dots, white space: the normalized name is the core in lower case |
| Normalization.EveryName | backend/app/services/ingestion/domain_matcher.py:16 | every string is of that form or has no core |
| Normalization.CaseDoesNotMatter | backend/app/services/ingestion/domain_matcher.py:16 | names that differ in case alone have the same match, whatever is registered |
| Normalization.SpaceAroundDoesNotMatter | backend/app/services/ingestion/domain_matcher.py:16 | so does a name with white space around it |
| Normalization.FinalDotsExactly | backend/app/services/ingestion/domain_matcher.py:16 | so does a name with final dots if and only if no white space stands before them |
| Normalization.NormEdges | backend/app/services/ingestion/domain_matcher.py:16 | no capital, leading white space or final dot is left; white space is left at the end, and normalizing again changes the name, if and only if white space stood before final dots |
| Normalization.HostExactly | backend/app/schemas/domains.py:8-10 | the host names are two or more labels of letters, digits and inner hyphens joined by dots, each 1 to 63 long, 253 in all |
| Normalization.AcceptedName | backend/app/schemas/domains.py:19-25 | a name that passes the check is a normal host name, with one newline behind it exactly where one stood before final dots |
| Normalization.NewlineIsRegistered | backend/app/schemas/domains.py:19-25 | such a name exists |
| Normalization.NewlineMatchesNothing | backend/app/services/ingestion/domain_matcher.py:16-25 | a domain registered with it matches no name written without it |
| Attribution.SweepExact | backend/app/services/ingestion/report_writer.py:349-371 | the incremental resweep equals a full one if and only if every shown record whose match moved is reached by the pattern |
| Attribution.LikeRun | backend/app/repositories/dmarc_reports.py:1134-1143 | % stands for any run of characters |
| Attribution.LikeExactly | backend/app/repositories/dmarc_reports.py:1134-1143 | _ stands for any one character, a backslash for the next one itself, any other for itself |
| Attribution.TouchedExactly | backend/app/repositories/dmarc_reports.py:1134-1143 | a plain name's pattern matches exactly that name and what ends in a dot and it |
| Attribution.AddExact | backend/app/repositories/dmarc_reports.py:1126-1160 | for one added domain: if and only if all records that now belong to it are reached |
| Attribution.RemoveExact | backend/app/routers/domains.py:286-288 | for a removed domain: if and only if each of its records is reached or now matches nothing |
| Attribution.FamilyExact | backend/app/services/domain_setup.py:120-121 | any family of names, reswept once all are in, leaves every well-written record on its closest domain |
| Attribution.RemovalExact | backend/app/routers/domains.py:286-288 | so does removing a name |
| Attribution.ResweepTwice | backend/app/services/ingestion/report_writer.py:355-358 | a second resweep changes no row |
| Attribution.ResweepUnion | backend/app/services/domain_setup.py:120-121 | resweeping name after name is one resweep of all of them |
| Attribution.NeverMissedExactly | backend/app/repositories/dmarc_reports.py:1134-1143 | for any header: the resweep never misses it, whatever is registered, if and only if the raw text is touched by each name that could take it over |
| Attribution.SafeHeaders | backend/app/repositories/dmarc_reports.py:1134-1143 | for plain headers without spaces: if and only if the header is well written |
| Attribution.FinalDotIsMissed | backend/app/repositories/dmarc_reports.py:1134-1143 | mail from "b.c." belongs to b.c, and the resweep for b.c misses it |
| Attribution.AllAddExact | backend/app/repositories/dmarc_reports.py:1126-1160 | adding a family leaves all records exact, hidden ones too, if and only if each record it takes over has a header that a pattern matches and a shown record carries |
| Attribution.AllRemoveExact | backend/app/routers/domains.py:286-288 | removing a domain does if and only if each of its records is reached so or matches nothing any more |
| Attribution.ShowingIsSafe | backend/app/db/report_trust.py:25-34 | no change of the sender check brings up a wrong record if and only if the hidden records are exact too |
| Attribution.AddThenShow | backend/app/db/report_trust.py:25-34 | a family added while records are hidden does no harm in any later mode if and only if each record it takes over is reached |
| Attribution.RemoveThenShow | backend/app/db/report_trust.py:25-34 | the same condition for a removed domain |
| Attribution.HiddenRecordGoesStale | backend/app/db/report_trust.py:25-34 | a hidden record stays on its parent's domain when its own is added |
| DomainForest.CreateKeepsForest | backend/app/routers/domains.py:56-96 | adding a domain keeps one level of nesting, suffix names and inherited verification |
| DomainForest.VerifyKeepsForest | backend/app/repositories/domains.py:71-79 | so does a passed challenge, which reaches a root's subdomains and unverifies nobody |
| DomainForest.DeleteKeepsForest | backend/app/routers/domains.py:272-287 | so does removing a domain without subdomains |
| DomainForest.FamilyKeepsForest | backend/app/services/domain_setup.py:97-117 | so does a whole family with its moves |
| DomainForest.FamilyIsComplete | backend/app/services/domain_setup.py:66-122 | everything detected under the root is registered, every other root under it is its child unless it has subdomains, and nothing else moved |
| DomainForest.ClosestRootIsUnique | backend/app/services/domain_setup.py:80-83 | a name has at most one closest root |
| DomainRegistry.FamilyFitsAlways | backend/app/services/domain_setup.py:86-102 | no insert of a family repeats a registered or just-added name, and its root is a root |
| DomainRegistry.RequestKeepsOrg | backend/app/routers/domains.py:56-291 | every request keeps the forest, every shown record with a well-written header on its closest domain, and every report on none or on a registered name at or above its policy domain |
| DomainRegistry.RegistryIsConsistent | backend/app/services/domain_setup.py:31-122 | so do all runs of requests |
| DomainRegistry.IngestedOnClosest | backend/app/services/ingestion/domain_matcher.py:8-25 | what arrives is stored as it is, on the longest registered name at or above it, and moves nothing else |
| DomainRegistry.VerificationIsNeverLost | backend/app/services/dns_checks/domain_verification.py:35-53 | over any run a verified domain stays registered and verified until it is deleted |
| DomainVerification.VerifiedExactly | backend/app/services/dns_checks/domain_verification.py:43-49 | after any request a domain is verified if and only if it was before, the request passed a challenge on it or on its root, or it joined a verified root by the request |
| DomainVerification.ChallengeKeepsShape | backend/app/repositories/domains.py:71-79 | a challenge changes no name, parent, record or report |
| DomainVerification.VerifiedHasReason | backend/app/services/dns_checks/domain_verification.py:35-53 | over any run, what ends up verified was covered at the start or by a challenge passed in between, at its own name or above |
| DomainVerification.OnlyChallengesVerify | backend/app/services/dns_checks/domain_verification.py:35-53 | from an empty organization only challenges verify |
| DomainVerification.CreatedExactly | backend/app/routers/domains.py:62-86 | a create request registers its name, under the parent named, if and only if the name is valid and new and ends in a registered root given as parent; nothing else changes |
| DomainVerification.RefusedFor | backend/app/routers/domains.py:63-86 | when each of the four refusals is given |
| DomainVerification.DeletedExactly | backend/app/routers/domains.py:272-287 | a removal takes exactly its domain, if and only if nothing hangs under it and it has no reports as a verified domain |
| DomainVerification.AddedExactly | backend/app/services/domain_setup.py:79-117 | a detected name goes under the longest root above it, else under its registrable domain where that is seen and new, else alone; new names hang under a root they end in, and what moves had nothing under it |
| DomainVerification.HistoryIsKept | backend/app/routers/domains.py:275-283 | a verified domain with a report keeps both through every run |
| DomainRegistry.ReportsAddExact | backend/app/services/ingestion/report_writer.py:307-346 | after adding names the sweep leaves all shown reports on their closest domain if and only if none that has a domain belongs to one of the names |
| DomainRegistry.ReportsRemoveExact | backend/app/routers/domains.py:280-288 | after removing a name it always does |
| DomainRegistry.ReportKeepsOlderDomain | backend/app/services/ingestion/report_writer.py:317-328 | every report with a domain that belongs to the added name keeps the domain it has |
| DomainSetup.Registry.AddDomain | backend/app/services/domain_setup.py:31-54 | inserts the row, verified if its parent is |
| DomainSetup.Registry.ResweepUnmatchedReports | backend/app/services/ingestion/report_writer.py:307-346 | the loop gives every waiting report its match and touches no other |
| DomainSetup.Registry.UpdateRecordDomain | backend/app/repositories/dmarc_reports.py:1148-1160 | moves exactly the records of that header on another domain, and counts them |
| DomainSetup.Registry.ResweepDomainRecords | backend/app/services/ingestion/report_writer.py:349-371 | the loop over headers is the resweep, and the count is the number of records changed |
| DomainSetup.Registry.AttributeReports | backend/app/services/domain_setup.py:57-63 | both resweeps, with the records changed counted |
| DomainSetup.Registry.CreateDomain | backend/app/routers/domains.py:56-96 | the route is the request, refused for exactly the listed reasons |
| DomainSetup.Registry.VerifyDomain | backend/app/routers/domains.py:230-243 | the route is the request |
| DomainSetup.Registry.DeleteDomain | backend/app/routers/domains.py:266-291 | the route is the request |
| DomainSetup.Registry.AddFamilyMembers | backend/app/services/domain_setup.py:100-102 | the loop adds each detected subdomain once |
| DomainSetup.Registry.MoveRoots | backend/app/services/domain_setup.py:104-117 | the loop moves exactly the roots under the new root that have no subdomains, keeping or inheriting verification |
| DomainSetup.Registry.AddDetectedDomain | backend/app/services/domain_setup.py:66-122 | the whole routine, loops and branches, is the request proved consistent above |
| ReportTrust.DecideSql | backend/app/services/ingestion/sender_auth.py:67-102 | the SQL expression under three-valued logic decides as the Python rule does |
| ReportTrust.CountsExactly | backend/app/services/ingestion/sender_auth.py:67-76 | what counts in each mode: origin, DMARC result and reporter |
| ReportTrust.StricterCountsLess | backend/app/services/ingestion/sender_auth.py:67-76 | what one mode counts another counts too if and only if the other is no stricter |
| ReportTrust.ReportStore.DeleteUnverifiedDuplicate | backend/app/repositories/dmarc_reports.py:1073-1085 | the failed copies of the key go with their records |
| ReportTrust.ReportStore.InsertIfNew | backend/app/repositories/dmarc_reports.py:1013-1029 | inserts unless the natural key is stored |
| ReportTrust.ReportStore.WriteAggregateReport | backend/app/services/ingestion/report_writer.py:116-159 | delete, insert and records as one step, new exactly when the report is stored afterwards |
| ReportTrust.ReportStore.ApplyReportSenderCheck | backend/app/repositories/dmarc_reports.py:1053-1070 | re-decides every report and copies its flag to its records |
| ReportTrust.ReportStore.SetMode | backend/app/routers/organizations.py:59-62 | changes the mode and re-decides, or does nothing for the same mode |
| ReportTrust.StepKeepsInv | backend/app/services/ingestion/report_writer.py:116-159 | every email and mode change keeps one report per key, flags that follow the facts, and each report's records whole with its flag |
| ReportTrust.StoreIsConsistent | backend/app/repositories/dmarc_reports.py:1053-1085 | so do all runs |
| ReportVisibility.OnlyFailedCopiesGo | backend/app/repositories/dmarc_reports.py:1073-1085 | a stored report goes only if it had failed, and its verified copy takes its place |
| ReportVisibility.StoredCopyIsKept | backend/app/services/ingestion/report_writer.py:116-135 | under one mode the stored copy is the first, or if that failed, the first that passed |
| ReportVisibility.VisibleExactly | backend/app/db/report_trust.py:1-12 | a key counts if and only if some copy passed or the first to arrive was not checked |
| ReportVisibility.OrderDoesNotMatter | backend/app/services/ingestion/report_writer.py:130-135 | where all copies were checked, arrival order does not change what counts |
| ReportVisibility.ModeChangeIsReversible | backend/app/repositories/dmarc_reports.py:1053-1070 | changing the mode and back restores the tables exactly |
| ReportVisibility.SameModeIsNoChange | backend/app/routers/organizations.py:59-62 | re-deciding under the current mode changes nothing, so skipping it is right |
| ReportVisibility.RelaxingKeepsVisible | backend/app/repositories/dmarc_reports.py:1053-1070 | a mode change keeps every visible key of every store visible if and only if it does not tighten |
| ReportVisibility.VisibleAfterChange | backend/app/repositories/dmarc_reports.py:1053-1070 | after a change of mode a key counts if and only if the new mode counts the copy the old one kept |
| ReportVisibility.GenuineSurviveExactly | backend/app/services/ingestion/report_writer.py:130-135 | a change of mode leaves every key visible that has a copy the new mode counts, over all arrivals, if and only if it is no change or turns the check off |
| Rollups.JoinSeesTheSame | backend/app/repositories/dmarc_reports.py:278-295 | the query without the join sees the joined rows if and only if no record that counts hangs on a report left out |
| Rollups.SummaryAgreesWithTotals | backend/app/repositories/dmarc_reports.py:278-295 | with flags that follow, its two numbers are those of report_totals |
| RollupSums.SumsExactly | backend/app/repositories/dmarc_reports.py:911-931 | each of the nine sums is the number of messages of the records of its kind: all, accepted, quarantined, rejected, passing SPF, DKIM or either, under enforcement, and blocked under it |
| RollupSums.EnforcingExactly | backend/app/repositories/dmarc_reports.py:886-900 | mail in the published domain's own name comes under p, other mail under sp, or p where there is none |
| RollupSums.GroupsCountTheirRows | backend/app/repositories/dmarc_reports.py:707-747 | so in every row of every grouping |
| RollupSums.JoinedExactly | backend/app/repositories/dmarc_reports.py:636-667 | the joined queries read the domain's records of existing reports, both not left out by the sender check, in the window |
| Rollups.GroupsAddUp | backend/app/repositories/dmarc_reports.py:707-747 | the groups of any column, in any order, add up to the ungrouped totals |
| Rollups.GroupsWellCounted | backend/app/repositories/dmarc_reports.py:903-943 | in every group dispositions add up to the volume, and passes lie between the larger and the sum of SPF and DKIM passes |
| Services.FillBuckets | backend/app/services/dmarc_analytics.py:73-100 | the loop leaves one bucket per service, in order of first appearance, holding exactly its rows and their sums |
| Services.BuildServices | backend/app/services/dmarc_analytics.py:64-148 | the list of services, described and stably sorted by volume |
| Services.EachIpInOneService | backend/app/services/dmarc_analytics.py:64-148 | each row is in exactly one service, its identity's, and services come busiest first |
| Services.ServicesAddUp | backend/app/services/dmarc_analytics.py:96-100 | the services add up to the IP rows in all nine sums |
| Services.AlignedBound | backend/app/services/dmarc_analytics.py:70-71 | the rounded percentage is at most 5.0 if and only if the exact one is at most 5.05 |
| Services.SpoofedExactly | backend/app/services/dmarc_analytics.py:36-44 | when a service is flagged, in whole messages |
| Services.SpoofedPassesLittle | backend/app/services/dmarc_analytics.py:24-44 | a flagged service passes DMARC on at most 10.1% of its mail |
| Services.SpoofedBoundIsSharp | backend/app/services/dmarc_analytics.py:24-44 | and that bound is met |
| Services.FcrdnsFromFamilies | backend/app/services/dmarc_analytics.py:47-61 | the overall state follows from the IPv4 and IPv6 states |
| Services.FcrdnsExactly | backend/app/services/dmarc_analytics.py:47-61 | pass if all IPs of at least one are confirmed, fail if none is |
| ServiceFacts.ServiceExactly | backend/app/services/dmarc_analytics.py:103-145 | each service's sums, number of IPs, percentages and match method, from its own rows |
| ServiceFacts.ServiceStates | backend/app/services/dmarc_analytics.py:119-131 | its reverse-DNS states, overall and by address family, and whether it sends over IPv6 |
| ServiceFacts.SourceIpsExactly | backend/app/services/dmarc_analytics.py:118-142 | each listed IP's own facts, most mail first |
| ServiceFacts.PctExactly | backend/app/services/dmarc_analytics.py:70-71 | a percentage is the nearest tenth, halves to the even side |
| ServiceFacts.BusiestFirst | backend/app/services/dmarc_analytics.py:147 | services with more mail come first |
| Breakdowns.RollupsAgree | backend/app/repositories/dmarc_reports.py:620-747 | headline numbers, totals, groups of any column and services made from the IP rows all agree |
| Breakdowns.FlaggedServicesPassLittle | backend/app/services/dmarc_analytics.py:64-148 | the 10.1% bound from the records up |
| Breakdowns.ServiceBreakdownMulti | backend/app/services/dmarc_analytics.py:197-245 | per domain, the services of that domain's rows; absent exactly without rows |
| Breakdowns.MultiExactly | backend/app/repositories/dmarc_reports.py:964-985 | the batch reads the records of the domains asked for, and has rows for no other |
| Breakdowns.MultiRestrictsToSingle | backend/app/repositories/dmarc_reports.py:946-986 | the batched rows of a domain are a result of that domain's own query |
| Breakdowns.MultiAgreesWithSingle | backend/app/services/dmarc_analytics.py:197-245 | for any orders of both queries: the same rows and the same services but for order and match method, and the same list for every order if and only if the rows are settled |
| ServiceOrder.ListingsAgree | backend/app/repositories/dmarc_reports.py:903-943 | the results of one GROUP BY are exactly the listings of the same rows |
| ServiceOrder.ServicesUpToOrder | backend/app/services/dmarc_analytics.py:64-148 | whatever the order of the rows, each service has the same counts, percentages, flag, reverse-DNS states and IPs |
| ServiceOrder.OrderFreeExactly | backend/app/services/dmarc_analytics.py:103-147 | the whole list is the same for every order of the rows if and only if no two services and no two IPs of one service have the same volume, and each service's IPs were matched one way |
| RateLimit.HitsTable.Check | backend/app/services/auth/rate_limit.py:64-77 | count, then insert: allowed exactly below the limit, else refused with retry_after |
| RateLimit.HitsTable.CountRecentHits | backend/app/repositories/rate_limits.py:18-27 | counts the bucket's hits after the cutoff |
| RateLimit.HitsTable.PruneHitsOlderThan | backend/app/repositories/rate_limits.py:47-51 | removes exactly the older hits |
| RateLimit.WindowBound | backend/app/repositories/rate_limits.py:9-15 | no window of that length holds more than the limit, however timestamps jump, if no prune reached into it |
| RateLimit.PruneIsSafeExactly | backend/app/repositories/rate_limits.py:47-51 | pruning changes no count of any table if and only if all it deletes is out of the window |
| RateLimit.WindowIsExact | backend/app/repositories/rate_limits.py:18-27 | stretches of a length hold at most the limit, in all timely runs and wherever they start, if and only if the length is at most the window |
| RateLimit.RetryAfterIsExact | backend/app/repositories/rate_limits.py:30-40 | retry_after is the least number of seconds that takes the earliest hit out |
| RateLimit.WaitingIsEnough | backend/app/services/auth/rate_limit.py:72-75 | over any run without checks from the future, waiting that long is enough |
| RateLimitMemory.InMemoryWindow.Check | backend/app/services/auth/rate_limit.py:47-61 | the in-memory window decides as the table would on the same hits |
| RateLimitMemory.RetriesDiffer | backend/app/services/auth/rate_limit.py:57-59 | it names one second more than the table exactly for whole-second waits |
| Versions.TagRoundTrip | backend/app/services/update_check.py:21-36 | every published tag parses to its own version |
| Versions.TupleOrder | updater/server.py:45-50 | comparing the tuples is comparing major, minor, patch, channel and number in that order |
| Versions.ChecksAgree | updater/server.py:53-70 | the updater accepts exactly what is_newer_version offers, and nothing for an unknown running version |
| ReleaseOrder.NewerExactly | backend/app/services/update_check.py:23-56 | of two published tags one is newer, and accepted, if and only if it comes after: by major, minor, patch, then betas, release candidates and the stable release in that order, then the number |
| ReleaseOrder.ParsesExactly | backend/app/services/update_check.py:21-36 | a string has a version if and only if it is written v, three numbers with dots between, perhaps -beta or -rc and a number, perhaps a final newline |
| ReleaseOrder.RefusedFor | updater/server.py:53-70 | when each of the other refusals is given |
| Versions.ChainAscends | updater/server.py:53-70 | a chain of accepted updates strictly ascends, so no tag comes back |
| Versions.NewerIsTotalUpToParse | backend/app/services/update_check.py:39-56 | one of two tags is newer if and only if both parse, and differently |
| Versions.PublishedTagsNeverTie | backend/app/services/update_check.py:39-56 | two different published tags are never equally new |
| Versions.StringsCanTie | backend/app/services/update_check.py:21 | a final newline changes the string and not the version |
| Versions.PickLatestRelease | backend/app/services/update_check.py:66-76 | the first of the highest candidates, none exactly when there is none |
| ReleaseOrder.LatestComesLast | backend/app/services/update_check.py:66-76 | no published, undrafted tag of the listing comes after the one picked |
| Versions.LatestOfAnyOrder | backend/app/services/update_check.py:66-76 | the version picked does not depend on the order of the listing |
| AzureUpdate.RetagContainers | updater/azure_update.py:73-79 | the loop retags exactly our images and drops APP_VERSION everywhere |
| AzureUpdate.RetagMovesOurs | updater/azure_update.py:75-77 | an image of ours under any tag gets the new one, and any other stays |
| AzureUpdate.EnvOne | updater/azure_update.py:78-79 | exactly APP_VERSION goes |
| AzureUpdate.EnvConcat | updater/azure_update.py:78-79 | from any list, variable by variable and in order |
| AzureUpdate.Template.Retag | updater/azure_update.py:67-80 | both container lists are retagged and a fixed revisionSuffix is dropped |
| AzureUpdate.LastRetagWins | updater/azure_update.py:67-80 | only the last of two retags shows, and other images stay |
| AzureUpdate.Deployment.Run | updater/azure_update.py:156-179 | a run is refused by its check, or does its stages in order up to where it stops, at the latest at migrations the database is ahead of |
| AzureUpdate.RunKeepsOrder | updater/azure_update.py:170-178 | wherever a run stops, the schema serves worker and api, worker >= api >= updater, and schema and api have not gone back |
| AzureUpdate.RunsKeepOrder | updater/azure_update.py:156-179 | so for all sequences of runs |
| AzureUpdate.WorkerMovesBackExactly | updater/azure_update.py:170-174 | a run takes the worker back if and only if it gets past the migrations with a target the worker was ahead of, so only between releases with the same migrations |
| AzureUpdate.RehearsalChangesNothingExactly | updater/azure_update.py:145-153 | a rehearsal gets through and changes nothing if and only if schema and all parts are on the api's release |
| AzureUpdate.RehearsalMovesWorkerBack | deploy/azure/modules/environment.bicep:140-160 | after an update that stopped behind the worker, a rehearsal takes it back if and only if the newer release adds no migration, and otherwise fails after retagging the migrate job |
| EnvFile.EnvFile.SetEnvVar | updater/server.py:125-143 | the loop and its else branch are the edit of the content |
| EnvFile.KeyLineExactly | updater/server.py:133-134 | a line is the key's if behind its white space it starts with the key and an equals sign |
| EnvFile.FirstKeyLine | updater/server.py:133-140 | the first line with the key is replaced, else the last line is ended and one appended |
| EnvFile.JoinSplit | updater/server.py:131-142 | splitting and joining any content gives it back |
| EnvFile.GetAfterSet | updater/server.py:125-143 | the new value is read back if and only if the key had at most one line or its last line said so already |
| EnvFile.LastSetWins | updater/server.py:125-143 | the last of two sets stands alone |
| EnvFile.OtherKeysStay | updater/server.py:125-129 | every other variable reads as before |
| EnvFile.EditIsSound | updater/server.py:125-143 | all three for the edit of any file content |
| ImageTag.WithImageTag | updater/portainer_update.py:48-55 | the loop puts the tag in place of its first entry, or at the end |
| ImageTag.TagIsSet | updater/portainer_update.py:48-55 | exactly one entry names the tag, all others stay in order |
| ImageTag.LastTagWins | updater/portainer_update.py:48-55 | the last of two tags stands alone |
| ActionQueue.MergeSenderItems | backend/app/services/action_queue/rules.py:395-414 | the two loops give the merged list |
| ActionQueue.OnePerSender | backend/app/services/action_queue/rules.py:395-414 | items about no sender stay, and each sender has exactly one item |
| ActionQueue.GroupIsLed | backend/app/services/action_queue/rules.py:410-413 | it is the first of the most urgent items, with exactly the distinct hints of the group, each once |
| ActionUrgency.GroupLeader | backend/app/services/action_queue/rules.py:410-413 | the first item of those nothing in the group is more urgent than, by critical, serious, warning, good, neutral and then category |
| ActionUrgency.SeverityExactly | backend/app/services/action_queue/rules.py:408-410 | the severities in that order, other words last |
| ActionUrgency.HintText | backend/app/services/action_queue/rules.py:411-413 | the hints joined by a dot |
| ActionUrgency.SenderExactly | backend/app/services/action_queue/rules.py:395-405 | an item is about a sender if and only if its link has the sender page's address in it |
| ActionQueue.MergeIsIdempotent | backend/app/services/action_queue/rules.py:395-414 | merging a merged list changes nothing |
| Collections.StableSortIsUnique | backend/app/services/dmarc_analytics.py:147 | a stable sort by a key has one result |

## Left out

- JobTable.JobTable.EnqueueJob: the payload is opaque text.
- JobProtocol.QueueIsSafe: assumes that no reclaim finds a handler past the stale limit, as the setting's comment asks; `LeaseSafety` and `OverrunBreaksLease` show that this is needed.
- JobFairness.BoundedOvertaking: a bound on claims, not on time; it assumes nothing about how fast consumers poll.
- LeaderCadence.Leader.Tick: enqueueing and reclaiming are only reported (`JobProtocol` has what they do), a poll that raises after some mailboxes counts as raised, and the election is not modelled: a round takes place where the lock was acquired.
- LeaderCadence.FiresAreSpaced: one process; a newly elected leader fires everything at once, and the dedupe keys absorb it.
- JobRescue.StrandedJobIsRescued: one clock for the database and the leader's process, and one leader whose rounds go on past the reclaim.
- DomainSetup.Registry.ResweepUnmatchedReports: one table of reports; forensic and TLS reports are swept by the same loop and add to the same count.
- DomainRegistry.RegistryIsConsistent: covers shown records with well-written headers, and each report and record keeps the visibility it was ingested with; other headers, hidden records and reports are covered exactly by `AddExact`, `RemoveExact`, `NeverMissedExactly`, `AddThenShow`, `RemoveThenShow` and `ReportsAddExact`.
- ReportTrust.ReportStore.WriteAggregateReport: aggregate reports; TLS reports follow the same statements with another key, and forensic ones are never replaced. The domain matched for the report and its records is in `DomainRegistry`. How the facts are read from mail headers is not part of this model.
- Rollups.GroupsAddUp: not the distinct report count and the newest receipt time of the totals, which do not add up over groups.
- Services.BuildServices: percentages are exact rationals, not floating point; the rendered fields that are copies of the row are not repeated.
- RateLimit.HitsTable.Check: the advisory lock appears only as the serialization of checks of one bucket.
- RateLimitMemory.InMemoryWindow.Check: needs a positive limit, as every limiter of the repository has; monotonic time is counted in microseconds.
- Versions.TagRoundTrip: decimal digits are ASCII.
- AzureUpdate.RunsKeepOrder: waiting, polling and the calls to Azure are not modelled, nor is a migrate job that goes on after its run gave up waiting.
- EnvFile.GetAfterSet: takes it that a reader of the env file keeps a key's last line; the reader is not part of the repository.
- EnvFile.EnvFile.SetEnvVar: only a newline ends a line; the other characters `splitlines` knows are ordinary characters here.
- DNS, SMTP, Graph, Cloudflare, GitHub, Docker and Portainer calls, sign-in and sessions, row-level security and the user interface.
- The TLS-RPT summary and by-sender sums, the threshold rules of the action queue and the trend: sums and comparisons of one body each.
