# Lens: release ingestion and deployment metrics, in Dafny

This project models the core of Lens, the service that turns
deployment-completion events into release records and then into a
deployment-metrics report for an application and environment over a time
window. The report covers cycle time, lead time, change-failure rate,
recovery time and change size.

- **Release ingestion** (`ingestion_service.dfy`, `lead_time_resolution.dfy`).
  Ingesting an event takes these steps:
  1. Save the release row and its pipeline materials.
  2. Classify the release. It is a RollBack when its artifact was deployed
     to the same application and environment before; otherwise it is a
     RollForward.
  3. Look for a predecessor triggered within the last two hours. If there
     is one, mark it Failure and make the new release a Patch.
  4. Diff every material whose commit moved since the previous release
     through the git-sensor.
  5. Record the added and deleted lines, and a lead-time row for the
     strictly oldest commit.
  6. Advance the release to stage LeadTimeFetch.
- **Deployment metrics** (`metric_series.dfy`, `deployment_metric_service.dfy`).
  - The query loads the window's releases newest first, with their
    materials, their lead times and the release before the window.
  - It transforms them into points and fills the report object in place.
  - Every loop of the service is a method proved equal to a pure function
    over the series, and lemmas about those functions say what the numbers
    mean. Examples: the cycle times telescope to the window's span; the
    failure rate lies in [0, 100]; a recovery is measured to the nearest
    newer success; there are never more recoveries than failures.
- **Repositories** (`app_release_repository.dfy`,
  `pipeline_material_repository.dfy`, `leadtime_repository.dfy`, `store.dfy`).
  - The three tables are sequences of rows in insertion order, held by one
    `Store` class with the id serials.
  - Each query is a selection function with a membership and multiplicity
    contract.
  - Each write is a store method. The store keeps release ids increasing
    and below the serial.
  - Environment cleanup is one all-or-nothing transaction.

How the model represents the system:
- Database errors are fault sets, one flag per statement or call site:
  `Ingestion.Step`, `DeploymentMetrics.Query` and `Store.CleanupFaults`.
  A failing statement changes nothing.
- The git-sensor is a function from request to `Option<GitChanges>`.
- The clock is a `now` parameter.
- Timestamp parsing is a function parameter applied to the fixed layout
  `2006-01-02T15:04:05.000Z`.
- Times and durations are whole minutes (`int`); averages are exact `real`s.

A failed git-sensor fetch fails ingestion: `fetchAndSaveChangesFromGit`
returns the error and `ProcessDeploymentEvent` passes it on as `(nil, err)`
(pkg/IngestionService.go:159-163 and 83-85). In the model `FetchFailure`
reaches the caller as `Err`, no lead time is saved, and the release stays at
stage ReleaseTypeDetermined.

## Model

| member | source | states |
|---|---|---|
| AppReleases.StatusOfOrdinal | internal/sql/AppReleaseRepository.go:32-41 | a status exists for an ordinal exactly when it is 0 or 1; its ordinal and label are the stored ones |
| AppReleases.TypeOfOrdinal | internal/sql/AppReleaseRepository.go:44-55 | a type exists for exactly the ordinals 0..3, with the matching label |
| AppReleases.StageOfOrdinal | internal/sql/AppReleaseRepository.go:58-70 | a stage exists for exactly the ordinals 0..2, with the matching label |
| AppReleases.EnumsRoundTrip | internal/sql/AppReleaseRepository.go:32-70 | ordinal then lookup gives back each enumeration value, and labels are distinct |
| AppReleases.IdsOrdered | internal/sql/AppReleaseRepository.go:14 | in a table in key order, positions compare as their ids do, so ids are unique |
| AppReleases.AppendKeepsIds | internal/sql/AppReleaseRepository.go:97-100 | inserting a row whose serial id exceeds every id keeps the table in key order |
| AppReleases.Latest | internal/sql/AppReleaseRepository.go:125-131 | `Last()` finds nothing iff no row matches; otherwise it finds a matching row with the largest id |
| AppReleases.CheckDuplicateRelease | internal/sql/AppReleaseRepository.go:107-119 | the count exceeds one iff two distinct rows carry the (app, environment, artifact) triple |
| AppReleases.DuplicateAfterInsert | internal/sql/AppReleaseRepository.go:107-119 | right after a release is inserted, the check holds iff an earlier row carries its triple |
| AppReleases.GetPreviousReleaseWithinTime | internal/sql/AppReleaseRepository.go:121-133 | no rows iff no same-pair row with a smaller id was triggered after `within`; otherwise the largest-id such row |
| AppReleases.GetPreviousRelease | internal/sql/AppReleaseRepository.go:135-145 | no rows iff no same-pair row has a smaller id; otherwise the largest-id such row |
| AppReleases.PreviousIgnoresCurrent | internal/sql/AppReleaseRepository.go:121-145 | the row just inserted is never its own predecessor, in either query |
| AppReleases.RecentPredecessorIsPrevious | internal/sql/AppReleaseRepository.go:121-145 | a recent predecessor implies a predecessor with at least its id, and it is that predecessor when that one is recent |
| AppReleases.GetReleaseBetween | internal/sql/AppReleaseRepository.go:147-161 | exactly the pair's rows with trigger time in [from, to], with their multiplicities, in descending id order |
| AppReleases.ReverseIdsDecreasing | internal/sql/AppReleaseRepository.go:158 | reversing a table in ascending id order gives descending id order |
| AppReleases.ReplaceRow | internal/sql/AppReleaseRepository.go:102-105 | update by primary key: the row with that id is replaced and every other row is unchanged |
| AppReleases.ReplaceRowKeepsIds | internal/sql/AppReleaseRepository.go:102-105 | an update keeps the table in key order |
| AppReleases.ReplaceAppended | internal/sql/AppReleaseRepository.go:102-105 | updating the row inserted last leaves every earlier row alone |
| AppReleases.PairIds | internal/sql/PipelineMaterialRepository.go:67-73 | the join key of the cascading deletes is exactly the ids of the pair's releases |
| AppReleases.DeletePair | internal/sql/AppReleaseRepository.go:163-167 | the delete keeps exactly the rows of other pairs, with their multiplicities |
| AppReleases.ReleaseDeleteResultAsWritten | internal/sql/AppReleaseRepository.go:168-173 | as written, the step reports nil whatever the delete returned |
| AppReleases.ReleaseDeleteResult | internal/sql/AppReleaseRepository.go:168-173 | corrected, the step reports an error iff the delete failed |
| AppReleases.ReleaseDeleteErrorSwallowed | internal/sql/AppReleaseRepository.go:168-173 | a failed delete is lost as written and passed on once corrected |
| PipelineMaterials.FindByAppReleaseId | internal/sql/PipelineMaterialRepository.go:50-54 | exactly the rows owned by the release, with their multiplicities |
| PipelineMaterials.FindByAppReleaseIds | internal/sql/PipelineMaterialRepository.go:56-60 | exactly the rows owned by one of the listed releases, with their multiplicities |
| PipelineMaterials.DeleteOwnedBy | internal/sql/PipelineMaterialRepository.go:67-80 | exactly the rows not owned by a release of the pair remain, with their multiplicities |
| LeadTimes.FindByIds | internal/sql/LeadtimeRepository.go:61-68 | exactly the rows whose owning release id is listed, with their multiplicities |
| LeadTimes.DeleteOwnedBy | internal/sql/LeadtimeRepository.go:70-83 | exactly the rows not owned by a release of the pair remain, with their multiplicities |
| Store.Store.SaveRelease | internal/sql/AppReleaseRepository.go:97-100 | on success the row is appended with the next serial id and returned; on failure nothing changes; the key order is kept |
| Store.Store.UpdateRelease | internal/sql/AppReleaseRepository.go:102-105 | on success the table is the primary-key replacement; on failure nothing changes |
| Store.Store.SaveMaterials | internal/sql/PipelineMaterialRepository.go:62-65 | all rows are appended in one statement, or none are |
| Store.Store.SaveLeadTime | internal/sql/LeadtimeRepository.go:56-59 | on success the row is appended with the next serial id; on failure nothing changes |
| Store.Store.CleanAppDataForEnvironment | internal/sql/AppReleaseRepository.go:176-196 | an error iff one of the three deletes fails, and then nothing changes; otherwise lead times and materials of the pair's releases, then those releases, are gone |
| Store.CleanupKeepsOtherPairs | internal/sql/AppReleaseRepository.go:176-196 | a release of another pair, and every material and lead time it owns, survives the cleanup |
| Collections.LastWith | pkg/DeploymentMetricService.go:232-239 | finds nothing iff no element has the key; otherwise the element at the last position with that key |
| Collections.IndexByLast | pkg/DeploymentMetricService.go:232-239 | a key is in the map iff some element has it, and it maps to the value of the last such element |
| Collections.BuildIndex | pkg/IngestionService.go:139-142 | the map-filling loop builds exactly IndexByLast |
| Ingestion.MaterialsFor | pkg/IngestionService.go:228-237 | one material row per event material, in order, owned by the new release |
| Ingestion.SameKeySameSuperseded | pkg/IngestionService.go:92-100 | only the key fields of a release decide its recent predecessor and the rows step 4 marks |
| Ingestion.SupersededMarksOnlyPredecessor | pkg/IngestionService.go:92-120 | step 4 changes exactly one earlier row, the recent predecessor, setting Failure and the update time |
| Ingestion.SupersededKeepsIds | pkg/IngestionService.go:101-109 | marking the predecessor keeps every id below the bound |
| Ingestion.SupersededKeepsPrevious | pkg/IngestionService.go:126-133 | after step 4, step 5 finds a previous release iff it did before, and with the same id |
| Ingestion.MarkedTable | pkg/IngestionService.go:101-118 | the two updates of step 4 leave the earlier rows superseded and the patched release last |
| Ingestion.MarkedPrevious | pkg/IngestionService.go:101-109 | the first update of step 4 marks the recent predecessor failed and leaves the release just inserted as it was |
| Ingestion.FindIgnoresNewMaterials | pkg/IngestionService.go:133 | materials saved for the new release are not found under the previous release's id |
| Ingestion.IngestionService.SaveAppRelease | pkg/IngestionService.go:206-226 | the saved row is exactly the event's row (identity, Unknown/Init/Success, zero sizes, `now`) under the next id; a failed insert changes nothing |
| Ingestion.IngestionService.SavePipelineMaterial | pkg/IngestionService.go:228-244 | the materials are MaterialsFor the release and are appended to the table; on failure none are saved and nil is returned |
| Ingestion.IngestionService.CheckAndUpdateReleaseType | pkg/IngestionService.go:246-267 | RollBack iff the duplicate check holds, otherwise RollForward; stage ReleaseTypeDetermined; the row is updated unless a statement fails |
| Ingestion.IngestionService.MarkPreviousTriggerFail | pkg/IngestionService.go:92-120 | no rows iff there is no recent predecessor; success iff it exists and both updates succeed, in which case it is Failure and the release a Patch; the table after each failure point |
| Ingestion.IngestionService.FetchAndSaveChangesFromGit | pkg/IngestionService.go:122-204 | no rows iff there is no previous release; an error other than no-rows iff ResolveFails (the previous-release lookup, the material lookup, a fetch, the lead-time insert or the final update failed); FetchFailure iff FetchFails; the lead-time table is ResolvedLeadTimes in every case; otherwise SavedChanges holds against the previous release's commit hashes |
| Ingestion.IngestionService.SaveChangesFromGit | pkg/IngestionService.go:139-204 | a fetch error iff some changed material's diff fails; otherwise the lead-time row for the oldest commit (if any) and the summed line counts at stage LeadTimeFetch |
| Ingestion.IngestionService.ProcessDeploymentEvent | pkg/IngestionService.go:57-90 | an error iff IngestFails (a step 1-3 statement fails, or, for a release that is no rollback, a step 4 or 5 statement or a fetch fails); FetchFailure iff only a fetch failed; no-rows never escapes; the three tables after each kind of failure; on success the release is RollBack iff its artifact was deployed before, Patch iff a recent predecessor existed, LeadTimeFetch iff a previous release existed, and the tables and lead time |
| Ingestion.IngestionService.SaveAndClassify | pkg/IngestionService.go:59-71 | an error iff a statement of steps 1 to 3 fails; after a failure the release and material rows already inserted stay; on success the release appended, its materials saved, and the release is the event's row classified RollBack iff an earlier row has its artifact |
| Ingestion.IngestionService.CompleteRelease | pkg/IngestionService.go:72-89 | steps 4 and 5 after a roll-forward: an error iff SupersedeFails or ResolveFails, FetchFailure iff step 4 succeeded and a fetch failed; the tables after a step 4 failure and after a step 5 failure; on success the earlier rows superseded, the type and stage as the predecessors decide, the change size and lead time from the diffs |
| Ingestion.IngestionService.ResolveIgnoresSupersede | pkg/IngestionService.go:76-89 | step 4 marking the predecessor and patching the release changes neither whether step 5 fails, nor whether a fetch fails, nor the lead times it saves |
| Ingestion.IngestionService.SupersedePrevious | pkg/IngestionService.go:76-80 | an error iff the lookup fails or, with a recent predecessor, either update fails; after a failure the predecessor is marked only when just the patch update failed; no recent predecessor is not an error; on success the table is Superseded plus the release, which is a Patch iff a recent predecessor existed |
| Ingestion.IngestionService.ResolveRelease | pkg/IngestionService.go:82-89 | an error (DbFailure or FetchFailure, with the release table unchanged) iff ResolveFails, FetchFailure iff FetchFails; the lead-time table is ResolvedLeadTimes; no previous release ends processing successfully with the release unchanged; otherwise the resolved release replaces it |
| Ingestion.IngestionService.CleanAppDataForEnvironment | pkg/IngestionService.go:269-278 | true iff the transaction committed, in which case the pair's rows are deleted; false with the error and nothing changed otherwise |
| LeadTimeResolution.RequestFor | pkg/IngestionService.go:152-158 | a diff is requested only for a moved material, from its old commit to its new one, which differ |
| LeadTimeResolution.Oldest | pkg/IngestionService.go:169-175 | the pick is at most every author date and below `now` when present; the first candidate with the minimal date wins; nothing is picked iff no date is before `now` |
| LeadTimeResolution.OldestAppend | pkg/IngestionService.go:170-174 | one more commit replaces the pick iff its author date is strictly earlier |
| LeadTimeResolution.SentinelMovedIffPicked | pkg/IngestionService.go:147-149 | the oldest time differs from `now` iff a commit was picked, so the lead-time branch reads a picked commit |
| LeadTimeResolution.LeadTimeRecord | pkg/IngestionService.go:180-186 | the record names the release, material, commit hash and committer date; lead time plus author date is the trigger time |
| LeadTimeResolution.FetchFailsIff | pkg/IngestionService.go:151-163 | resolution fails iff some moved material's diff cannot be fetched |
| LeadTimeResolution.CandidatesFromChangedMaterials | pkg/IngestionService.go:151-175 | every candidate commit came from the diff of a moved material and is tagged with that material's id |
| LeadTimeResolution.NothingChangedNothingFetched | pkg/IngestionService.go:151-153 | when no material moved, nothing is fetched: no lines and no commits |
| LeadTimeResolution.ScanChanges | pkg/IngestionService.go:144-177 | the scan loop errs iff the fetch fails; otherwise it yields the summed lines of all diffs and the oldest pick |
| LeadTimeResolution.AddFileStats | pkg/IngestionService.go:164-168 | the inner loop adds one diff's added and deleted lines to the running totals |
| LeadTimeResolution.ScanCommits | pkg/IngestionService.go:169-175 | the inner loop carries the pick over one diff's commits, tagged with the material id |
| MetricSeries.PointsCarryReleases | pkg/DeploymentMetricService.go:244-265 | each point has its release's type, status, time and lines, size = added + deleted, no cycle or recovery time, and the last matching material's hash and lead time's minutes, or "" and 0 |
| MetricSeries.CycleTimesTelescope | pkg/DeploymentMetricService.go:130-141 | the cycle times sum to the span from the newest release back to the release before the window, or back to the oldest one |
| MetricSeries.AverageCycleTimeIsSpan | pkg/DeploymentMetricService.go:130-146 | the average cycle time is that span over the number of intervals, and 0 for a single release with nothing before it |
| MetricSeries.ZeroLeadTimeIgnored | pkg/DeploymentMetricService.go:121-128 | a point without a lead time does not move the average lead time, wherever it sits |
| MetricSeries.ChangeFailureRateBounds | pkg/DeploymentMetricService.go:171-185 | failures plus successes is the series length; the rate is in [0, 100]; it is 0 iff nothing failed, and 100 iff the series is non-empty and all failed |
| MetricSeries.FirstFailureTimeIsNewest | pkg/DeploymentMetricService.go:171-175 | the last-failed time is unset iff nothing failed; otherwise it is the time of the newest failure |
| MetricSeries.NewerSuccess | pkg/DeploymentMetricService.go:191-201 | the backwards scan finds nothing iff no newer release succeeded; otherwise the nearest newer success |
| MetricSeries.RecoveryAtIsNearestSuccess | pkg/DeploymentMetricService.go:186-203 | a point is charged a recovery iff it is the oldest failure of its run and a newer release succeeded; the time runs to the nearest such success |
| MetricSeries.RecoveredAtMostFailed | pkg/DeploymentMetricService.go:204-211 | there are never more recoveries than failures, so the average recovery time is recovery total over recovered count |
| MetricSeries.KeepFirstRecoveryIsFirstNonZero | pkg/DeploymentMetricService.go:196-198 | from 0, the recovery time of the last failure is the first non-zero recovery in scan order |
| MetricSeries.TimesNonNegativeWhenOrdered | pkg/DeploymentMetricService.go:130-141 | with trigger times non-increasing along the series, no cycle or recovery time is negative |
| MetricSeries.AverageSizeIsAddedPlusDeleted | pkg/DeploymentMetricService.go:216-229 | for transformed points, the average deployment size is the average lines added plus the average lines deleted |
| MetricSeries.ThreeReleaseExample | pkg/DeploymentMetricService.go:165-214 | Success/Failure/Success at minutes 300/200/100: failure rate 100/3, one recovery of 100 minutes, last failure at 200, average cycle time 100 |
| DeploymentMetrics.IdsOf | pkg/DeploymentMetricService.go:90-93 | the id list has one entry per release, in order |
| DeploymentMetrics.Metrics.constructor | pkg/DeploymentMetricService.go:147-152 | a report over the series with the given cycle and lead averages and every other aggregate zero or unset |
| DeploymentMetrics.DeploymentMetricService.GetDeploymentMetrics | pkg/DeploymentMetricService.go:73-117 | a bad bound is a parse error; a failed read of the releases, materials or lead times is a database error; an empty window gives the empty report; otherwise the report for the window's points and the release before it, or none when that read fails |
| DeploymentMetrics.DeploymentMetricService.PopulateMetrics | pkg/DeploymentMetricService.go:119-163 | the fresh report holds Reports of the transformed points and the release before the window |
| DeploymentMetrics.DeploymentMetricService.CompleteMetrics | pkg/DeploymentMetricService.go:157-161 | the failure and recovery figures, then for a non-empty series the change sizes; with no points the sizes stay as they were |
| DeploymentMetrics.DeploymentMetricService.SumLeadTimes | pkg/DeploymentMetricService.go:121-128 | the loop gives the sum of the lead times and the number of points that have one |
| DeploymentMetrics.DeploymentMetricService.FillCycleTimes | pkg/DeploymentMetricService.go:130-142 | every point gets its cycle time; the total and count are those AverageCycleTime divides |
| DeploymentMetrics.DeploymentMetricService.CalculateChangeFailureRateAndRecoveryTime | pkg/DeploymentMetricService.go:165-214 | the series gets its recovery times; the failure rate, average recovery time, last-failed time and recovery time of the last failure are the series functions |
| DeploymentMetrics.DeploymentMetricService.CountFailures | pkg/DeploymentMetricService.go:171-185 | the loop counts failures and successes and, unless already set, notes the newest failure's time |
| DeploymentMetrics.DeploymentMetricService.ChargeRecoveries | pkg/DeploymentMetricService.go:186-203 | the loop writes each charged recovery into its point and yields the recovery total, the count and the kept first value |
| DeploymentMetrics.DeploymentMetricService.RecoveryFor | pkg/DeploymentMetricService.go:187-201 | one iteration of the recovery loop computes exactly the recovery charged to that point |
| DeploymentMetrics.DeploymentMetricService.CalculateChangeSize | pkg/DeploymentMetricService.go:216-229 | the three averages over a non-empty series |
| DeploymentMetrics.DeploymentMetricService.Transform | pkg/DeploymentMetricService.go:231-269 | the transform loop builds exactly Points of the releases, materials and lead times |

## Left out

- HTTP handlers, the NATS subscription, the git-sensor client and logging are not part of this model. The git-sensor is an oracle parameter, and log calls are dropped.
- `time.Now()` is a `now` parameter. Each call site reads the same value, where the code reads the clock separately for the created and updated times.
- Time parsing (`time.Parse`) is an abstract parser parameter. Only the fixed layout constant is modelled.
- Times are whole minutes. Go's nanosecond `time.Duration`, `.Minutes()` fractions and time zones are not modelled.
- Averages are exact reals. float64/float32 rounding in the averages and the failure rate is not modelled.
- `Metric.CommitTime` is never set by the code, so the model's point has no such field.
- `LastFailedTime` is modelled as the failure's minute (`Option<int>`), not as the formatted string; "" is `None`.
- The go-pg query builder, `RunInTransaction` mechanics, the row pointers and concurrency are not modelled. Each statement is a pure function or a store method, and the cleanup transaction commits all three deletes or none.
- Database errors other than "no rows" are one `DbFailure`, chosen by a per-statement fault flag. Which driver error occurs is not modelled.
- DeploymentMetrics.DeploymentMetricService.GetDeploymentMetrics: a failed read of the release before the window leaves it unknown. The model does not tell "no rows" apart from other errors there, because the code drops both.
- DeploymentMetrics.DeploymentMetricService.PopulateMetrics: requires a non-empty series when a release before the window is given. The code would index an empty slice then, which its only caller never does.
- DeploymentMetrics.DeploymentMetricService.CalculateChangeSize: requires a non-empty series, as its only call site guards. The code would divide by zero otherwise.
- DeploymentMetrics.DeploymentMetricService.CalculateChangeFailureRateAndRecoveryTime: the counting loop, the recovery loop and its inner scan are the helper methods CountFailures, ChargeRecoveries and RecoveryFor. The inner scan reads statuses and times from the series as it was before the loop, which the loop never changes.
- DeploymentMetrics.DeploymentMetricService.PopulateMetrics: the lead-time loop, the cycle-time loop and the final two calls are the helper methods SumLeadTimes, FillCycleTimes and CompleteMetrics. The `Metrics` constructor receives the lead-time average instead of having the field set after construction.
- Ingestion.IngestionService.ProcessDeploymentEvent: steps 1-3, 4 and 5 are the helper methods SaveAndClassify, SupersedePrevious and ResolveRelease. The code's pointer to the release is a value threaded through them.
- The material and lead-time SELECTs have no ORDER BY (internal/sql/PipelineMaterialRepository.go:52 and 58, internal/sql/LeadtimeRepository.go:65). The model returns rows in insertion order. So for a release with several materials, the commit hash a point shows (MetricSeries.PointsCarryReleases) is the last row saved. So is the predecessor's hash per material id (LeadTimeResolution.OldHashes). The database may return another order.
- Store.Store.SaveMaterials: an empty material list is saved as a no-op. go-pg's bulk insert of an empty slice probably fails instead, which would make step 2 fail for an event without materials.
- `String()` of the enumerations panics for an out-of-range ordinal. The model returns `None` from the ordinal lookups instead.
- MetricSeries.KeepFirstRecoveryIsFirstNonZero follows the code: a recovery of 0 minutes does not count as the kept value, so a later one replaces it.

## Findings

| source | as written | input that shows it | evidently intended | confidence | as-written member | corrected member |
|---|---|---|---|---|---|---|
| internal/sql/AppReleaseRepository.go:168-173 | the branches of `cleanAppDataForEnvironment` are swapped: it returns nil when the delete fails and the (nil) error when it succeeds | cleanup where the app_release delete fails after the lead-time and material deletes succeed: the failure is not reported as an error. The error branch also calls `RowsAffected()` on the failed delete's result, which is probably nil, so the call likely panics before returning | return the delete's error so that the transaction rolls back | not executed | AppReleases.ReleaseDeleteResultAsWritten (shown by AppReleases.ReleaseDeleteErrorSwallowed) | AppReleases.ReleaseDeleteResult (used by Store.Store.CleanAppDataForEnvironment) |
