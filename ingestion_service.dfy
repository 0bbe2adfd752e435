/**
  Ingestion of one deployment event: save the release and its materials,
  classify it (RollBack when its artifact was deployed to the same app and
  environment before, otherwise RollForward), mark a predecessor triggered
  within the last two hours as failed (the new release is then a Patch), and
  resolve its change size and lead time against the predecessor release.
*/
module Ingestion {
  import opened Wrappers
  import opened Collections
  import opened GitSensor
  import opened AppReleases
  import opened PipelineMaterials
  import opened LeadTimes
  import opened Store
  import opened LeadTimeResolution

  datatype PipelineMaterialInfo = PipelineMaterialInfo(pipelineMaterialId: int, commitHash: string)

  datatype DeploymentEvent = DeploymentEvent(
    applicationId: int,
    environmentId: int,
    releaseId: int,
    pipelineOverrideId: int,
    triggerTime: int,
    pipelineMaterials: seq<PipelineMaterialInfo>,
    ciArtifactId: int)

  /** The database statements of the ingestion path, one per call site; a statement in the fault set fails. */
  datatype Step =
    | InsertRelease | InsertMaterials | CountArtifact | UpdateType
    | SelectRecent | UpdatePrevious | UpdatePatch
    | SelectPrevious | SelectMaterials | InsertLeadTime | UpdateStage

  /** The look-back in minutes within which an earlier release counts as superseded (failed). */
  const FailureWindow := 120

  /** The release row built from an event before it is saved. */
  function InitialRelease(ev: DeploymentEvent, now: int): AppRelease
  {
    AppRelease(0, ev.applicationId, ev.environmentId, ev.ciArtifactId, ev.releaseId, ev.pipelineOverrideId,
               0, 0, ev.triggerTime, Unknown, Success, Init, now, now)
  }

  /** Two versions of one release row: same key, identity and creation time. */
  predicate SameRelease(a: AppRelease, b: AppRelease)
  {
    && a.id == b.id && a.appId == b.appId && a.environmentId == b.environmentId
    && a.ciArtifactId == b.ciArtifactId && a.releaseId == b.releaseId
    && a.pipelineOverrideId == b.pipelineOverrideId && a.triggerTime == b.triggerTime
    && a.createdTime == b.createdTime
  }

  /** The release carries the event's identity: app, environment, artifact, release, override and trigger time. */
  predicate FromEvent(r: AppRelease, ev: DeploymentEvent)
  {
    && r.appId == ev.applicationId && r.environmentId == ev.environmentId
    && r.ciArtifactId == ev.ciArtifactId && r.releaseId == ev.releaseId
    && r.pipelineOverrideId == ev.pipelineOverrideId && r.triggerTime == ev.triggerTime
  }

  /** The material rows an event produces for the release with id `appReleaseId`, one per event material, in order. */
  function MaterialsFor(ev: DeploymentEvent, appReleaseId: int): (ms: seq<PipelineMaterial>)
    ensures |ms| == |ev.pipelineMaterials|
    ensures forall i :: 0 <= i < |ms| ==>
      ms[i] == PipelineMaterial(ev.pipelineMaterials[i].pipelineMaterialId, ev.pipelineMaterials[i].commitHash, appReleaseId)
  {
    seq(|ev.pipelineMaterials|, i requires 0 <= i < |ev.pipelineMaterials| =>
      PipelineMaterial(ev.pipelineMaterials[i].pipelineMaterialId, ev.pipelineMaterials[i].commitHash, appReleaseId))
  }

  /** The latest earlier release of the same pair triggered strictly within the failure window before `release`. */
  function RecentPrevious(rows: seq<AppRelease>, release: AppRelease): Option<AppRelease>
  {
    GetPreviousReleaseWithinTime(rows, release.appId, release.environmentId, release.triggerTime - FailureWindow, release.id)
  }

  /** An earlier release superseded by a newer one is marked failed. */
  function MarkedFailed(r: AppRelease, now: int): AppRelease
  {
    r.(releaseStatus := Failure, updatedTime := now)
  }

  /**
    The earlier releases as step 4 leaves them: the recent predecessor of
    `release`, if there is one, marked failed.
  */
  function Superseded(rows: seq<AppRelease>, release: AppRelease, now: int): seq<AppRelease>
  {
    var prev := RecentPrevious(rows, release);
    if prev.None? then rows else ReplaceRow(rows, MarkedFailed(prev.value, now))
  }

  /** The release row once step 3 has classified it as `t`. */
  function ClassifiedRelease(ev: DeploymentEvent, id: int, now: int, t: ReleaseType): AppRelease
  {
    InitialRelease(ev, now).(id := id, releaseType := t, processStage := ReleaseTypeDetermined)
  }

  /** The event's artifact was deployed to its application and environment before: the release is a rollback. */
  predicate Redeployed(rows: seq<AppRelease>, ev: DeploymentEvent)
  {
    exists i :: 0 <= i < |rows| && SameArtifact(rows[i], ev.applicationId, ev.environmentId, ev.ciArtifactId)
  }

  /** Steps 1 to 3 fail: the release insert, the material insert, the artifact count or the type update. */
  predicate ClassifyFails(faults: set<Step>)
  {
    InsertRelease in faults || InsertMaterials in faults || CountArtifact in faults || UpdateType in faults
  }

  /** The release after a successful step 4: a Patch when it superseded a recent predecessor. */
  function AfterSupersede(rows: seq<AppRelease>, release: AppRelease, now: int): AppRelease
  {
    if RecentPrevious(rows, release).Some? then release.(releaseType := Patch, updatedTime := now) else release
  }

  /** Step 4 fails: the lookup of the recent predecessor, or, when there is one, either of the two updates. */
  predicate SupersedeFails(rows: seq<AppRelease>, release: AppRelease, faults: set<Step>)
  {
    SelectRecent in faults || (RecentPrevious(rows, release).Some? && (UpdatePrevious in faults || UpdatePatch in faults))
  }

  /** The release table a failed step 4 leaves: the predecessor is marked only when just the patch update failed. */
  function SupersedeFailedTable(rows: seq<AppRelease>, release: AppRelease, now: int, faults: set<Step>): seq<AppRelease>
  {
    (if SelectRecent !in faults && UpdatePrevious !in faults then Superseded(rows, release, now) else rows) + [release]
  }

  /** The predecessor's commit hash per material id, or None when the release has no predecessor. */
  ghost function PreviousHashes(releases: seq<AppRelease>, materials: seq<PipelineMaterial>, release: AppRelease)
    : Option<map<int, string>>
  {
    var prev := GetPreviousRelease(releases, release.appId, release.environmentId, release.id);
    if prev.None? then None else Some(OldHashes(FindByAppReleaseId(materials, prev.value.id)))
  }

  /** Only the key fields of a release decide its recent predecessor. */
  lemma SameKeySameSuperseded(rows: seq<AppRelease>, a: AppRelease, b: AppRelease, now: int)
    requires SameRelease(a, b)
    ensures RecentPrevious(rows, a) == RecentPrevious(rows, b)
    ensures Superseded(rows, a, now) == Superseded(rows, b, now)
  {
  }

  /** Step 4 changes exactly one earlier row, the recent predecessor, and only its status and update time. */
  lemma SupersededMarksOnlyPredecessor(rows: seq<AppRelease>, release: AppRelease, now: int)
    requires IdsIncreasing(rows)
    ensures |Superseded(rows, release, now)| == |rows|
    ensures forall i :: 0 <= i < |rows| ==>
      Superseded(rows, release, now)[i] ==
        if RecentPrevious(rows, release) == Some(rows[i]) then MarkedFailed(rows[i], now) else rows[i]
  {
    var prev := RecentPrevious(rows, release);
    if prev.Some? {
      var k :| 0 <= k < |rows| && rows[k] == prev.value;
      forall i | 0 <= i < |rows|
        ensures rows[i].id == prev.value.id <==> rows[i] == prev.value
      {
        IdsOrdered(rows, i, k);
      }
    }
  }

  /** Marking the predecessor failed keeps every id where it was. */
  lemma SupersededKeepsIds(rows: seq<AppRelease>, release: AppRelease, now: int, bound: int)
    requires forall i :: 0 <= i < |rows| ==> rows[i].id < bound
    ensures |Superseded(rows, release, now)| == |rows|
    ensures forall i :: 0 <= i < |rows| ==> Superseded(rows, release, now)[i].id < bound
  {
  }

  /** Marking the predecessor failed keeps every key the lookups use, so a previous release is found as before. */
  lemma SupersededKeepsPrevious(rows: seq<AppRelease>, release: AppRelease, now: int, appId: int, environmentId: int, currentId: int)
    requires IdsIncreasing(rows)
    ensures var s := Superseded(rows, release, now);
      && (GetPreviousRelease(s, appId, environmentId, currentId).None? <==>
          GetPreviousRelease(rows, appId, environmentId, currentId).None?)
      && (GetPreviousRelease(s, appId, environmentId, currentId).Some? ==>
          GetPreviousRelease(s, appId, environmentId, currentId).value.id ==
          GetPreviousRelease(rows, appId, environmentId, currentId).value.id)
  {
    SupersededMarksOnlyPredecessor(rows, release, now);
    var s := Superseded(rows, release, now);
    assert forall i :: 0 <= i < |rows| ==>
      s[i].id == rows[i].id && s[i].appId == rows[i].appId && s[i].environmentId == rows[i].environmentId;
    var a := GetPreviousRelease(s, appId, environmentId, currentId);
    var b := GetPreviousRelease(rows, appId, environmentId, currentId);
    if a.Some? {
      var k :| 0 <= k < |s| && s[k] == a.value;
      assert IsPredecessor(rows[k], appId, environmentId, currentId);
    }
    if b.Some? {
      var m :| 0 <= m < |rows| && rows[m] == b.value;
      assert IsPredecessor(s[m], appId, environmentId, currentId);
    }
  }

  /** The first update of step 4 marks the predecessor and leaves the release just inserted alone. */
  lemma MarkedPrevious(before: seq<AppRelease>, x: AppRelease, now: int)
    requires forall i :: 0 <= i < |before| ==> before[i].id < x.id
    requires RecentPrevious(before, x).Some?
    ensures ReplaceRow(before + [x], MarkedFailed(RecentPrevious(before, x).value, now)) == Superseded(before, x, now) + [x]
  {
    var f := MarkedFailed(RecentPrevious(before, x).value, now);
    var t := ReplaceRow(before + [x], f);
    var s := ReplaceRow(before, f);
    assert forall i :: 0 <= i < |before| ==> t[i] == s[i];
    assert t == s + [x];
  }

  /** The table after a successful step 4: the earlier rows superseded and the patched release last. */
  lemma MarkedTable(before: seq<AppRelease>, x: AppRelease, now: int, patched: AppRelease)
    requires forall i :: 0 <= i < |before| ==> before[i].id < x.id
    requires RecentPrevious(before, x).Some? && patched.id == x.id
    ensures ReplaceRow(ReplaceRow(before + [x], MarkedFailed(RecentPrevious(before, x).value, now)), patched) ==
      Superseded(before, x, now) + [patched]
  {
    MarkedPrevious(before, x, now);
    SupersededKeepsIds(before, x, now, x.id);
    ReplaceAppended(Superseded(before, x, now), x, patched);
  }

  /** The materials saved for the new release are not found under an earlier release's id. */
  lemma FindIgnoresNewMaterials(rows: seq<PipelineMaterial>, ev: DeploymentEvent, appReleaseId: int, otherId: int)
    requires otherId != appReleaseId
    ensures FindByAppReleaseId(rows + MaterialsFor(ev, appReleaseId), otherId) == FindByAppReleaseId(rows, otherId)
  {
    var news := MaterialsFor(ev, appReleaseId);
    var owned := (m: PipelineMaterial) => m.appReleaseId == otherId;
    FilterAppend(rows, news, owned);
    FilterNone(news, owned);
  }

  class IngestionService {
    const db: Store
    const gitSensor: ChangesOracle

    constructor (db: Store, gitSensor: ChangesOracle)
      ensures this.db == db && this.gitSensor == gitSensor
    {
      this.db := db;
      this.gitSensor := gitSensor;
    }

    /** Step 1: the release row, copied from the event, at stage Init and of type Unknown. */
    method SaveAppRelease(ev: DeploymentEvent, now: int, faults: set<Step>) returns (r: Result<AppRelease>)
      requires db.Valid()
      modifies db`releases, db`nextReleaseId
      ensures db.Valid()
      ensures InsertRelease in faults ==> r == Err(DbFailure) && db.releases == old(db.releases)
      ensures InsertRelease !in faults ==> r.Ok? && db.releases == old(db.releases) + [r.value]
      ensures r.Ok? ==>
        && FromEvent(r.value, ev)
        && r.value.id == old(db.nextReleaseId)
        && (forall i :: 0 <= i < |old(db.releases)| ==> old(db.releases)[i].id < r.value.id)
        && r.value.releaseType == Unknown && r.value.processStage == Init && r.value.releaseStatus == Success
        && r.value.changeSizeLineAdded == 0 && r.value.changeSizeLineDeleted == 0
        && r.value.createdTime == now && r.value.updatedTime == now
      ensures r.Ok? ==> r.value == InitialRelease(ev, now).(id := old(db.nextReleaseId))
    {
      IdsBelowAll(db.releases, db.nextReleaseId);
      r := db.SaveRelease(InitialRelease(ev, now), InsertRelease in faults);
    }

    /** Step 2: one material row per event material, all owned by the new release, saved in one statement. */
    method SavePipelineMaterial(ev: DeploymentEvent, appRelease: AppRelease, faults: set<Step>)
      returns (materials: seq<PipelineMaterial>, err: Option<Error>)
      modifies db`materials
      ensures InsertMaterials in faults ==> err == Some(DbFailure) && materials == [] && db.materials == old(db.materials)
      ensures InsertMaterials !in faults ==>
        && err == None
        && materials == MaterialsFor(ev, appRelease.id)
        && db.materials == old(db.materials) + materials
    {
      materials := [];
      for i := 0 to |ev.pipelineMaterials|
        invariant materials == MaterialsFor(ev, appRelease.id)[..i]
      {
        var info := ev.pipelineMaterials[i];
        materials := materials + [PipelineMaterial(info.pipelineMaterialId, info.commitHash, appRelease.id)];
      }
      err := db.SaveMaterials(materials, InsertMaterials in faults);
      if err.Some? {
        materials := [];
      }
    }

    /** Step 3: RollBack iff the artifact count for (app, env, artifact) exceeds one, else RollForward. */
    method CheckAndUpdateReleaseType(appRelease: AppRelease, now: int, faults: set<Step>)
      returns (r: AppRelease, err: Option<Error>)
      requires db.Valid()
      modifies db`releases
      ensures db.Valid()
      ensures CountArtifact in faults ==> r == appRelease && err == Some(DbFailure) && db.releases == old(db.releases)
      ensures CountArtifact !in faults ==>
        && (r.releaseType == RollBack <==>
            CheckDuplicateRelease(old(db.releases), appRelease.appId, appRelease.environmentId, appRelease.ciArtifactId))
        && r == appRelease.(releaseType := if CheckDuplicateRelease(old(db.releases), appRelease.appId, appRelease.environmentId,
                                                                    appRelease.ciArtifactId)
                                           then RollBack else RollForward,
                            processStage := ReleaseTypeDetermined, updatedTime := now)
        && (UpdateType in faults ==> err == Some(DbFailure) && db.releases == old(db.releases))
        && (UpdateType !in faults ==> err == None && db.releases == ReplaceRow(old(db.releases), r))
    {
      if CountArtifact in faults {
        return appRelease, Some(DbFailure);
      }
      var duplicate := CheckDuplicateRelease(db.releases, appRelease.appId, appRelease.environmentId, appRelease.ciArtifactId);
      r := appRelease.(releaseType := if duplicate then RollBack else RollForward);
      r := r.(processStage := ReleaseTypeDetermined, updatedTime := now);
      err := db.UpdateRelease(r, UpdateType in faults);
      ReplaceRowKeepsIds(old(db.releases), r);
    }

    /**
      Step 4: the latest same-pair release with a smaller id triggered strictly
      within the failure window before this one is marked Failure, and this
      release becomes a Patch. No such release is reported as no-rows.
    */
    method MarkPreviousTriggerFail(release: AppRelease, now: int, faults: set<Step>)
      returns (r: AppRelease, err: Option<Error>)
      requires db.Valid()
      modifies db`releases
      ensures db.Valid()
      ensures err.Some? ==> err == Some(NoRows) || err == Some(DbFailure)
      ensures err == Some(NoRows) <==> SelectRecent !in faults && RecentPrevious(old(db.releases), release).None?
      ensures err == None <==>
        && SelectRecent !in faults && RecentPrevious(old(db.releases), release).Some?
        && UpdatePrevious !in faults && UpdatePatch !in faults
      ensures err.Some? ==> r == release
      ensures err == Some(NoRows) ==> db.releases == old(db.releases)
      ensures err == None ==>
        && r == release.(releaseType := Patch, updatedTime := now)
        && db.releases == ReplaceRow(ReplaceRow(old(db.releases), MarkedFailed(RecentPrevious(old(db.releases), release).value, now)), r)
      ensures err == Some(DbFailure) ==>
        if SelectRecent !in faults && UpdatePrevious !in faults
        then db.releases == ReplaceRow(old(db.releases), MarkedFailed(RecentPrevious(old(db.releases), release).value, now))
        else db.releases == old(db.releases)
    {
      r := release;
      if SelectRecent in faults {
        return r, Some(DbFailure);
      }
      var previous := RecentPrevious(db.releases, release);
      if previous.None? {
        return r, Some(NoRows);
      }
      var failed := previous.value.(releaseStatus := Failure, updatedTime := now);
      err := db.UpdateRelease(failed, UpdatePrevious in faults);
      if err.Some? {
        return;
      }
      var patched := release.(releaseType := Patch, updatedTime := now);
      err := db.UpdateRelease(patched, UpdatePatch in faults);
      if err.None? {
        r := patched;
      }
    }

    /**
      The scan, lead-time insert or final update of step 5 fails, against the
      predecessor's hashes `oldHashes`: a diff cannot be fetched, the oldest
      commit's lead time cannot be saved, or the release cannot be updated.
    */
    ghost predicate ChangesFail(newMaterials: seq<PipelineMaterial>, oldHashes: map<int, string>, now: int, faults: set<Step>)
    {
      var f := FetchAll(newMaterials, oldHashes, gitSensor);
      || f.None?
      || (Oldest(f.value.candidates, now).oldest.Some? && InsertLeadTime in faults)
      || UpdateStage in faults
    }

    /**
      Step 5 fails: the lookup of the previous release fails (even when there is
      none), or there is one and its materials cannot be read or ChangesFail.
    */
    ghost predicate ResolveFails(releases: seq<AppRelease>, materials: seq<PipelineMaterial>, release: AppRelease,
                                 newMaterials: seq<PipelineMaterial>, now: int, faults: set<Step>)
    {
      var h := PreviousHashes(releases, materials, release);
      || SelectPrevious in faults
      || (h.Some? && SelectMaterials in faults)
      || (h.Some? && SelectMaterials !in faults && ChangesFail(newMaterials, h.value, now, faults))
    }

    /** Step 5 fails because the git-sensor cannot produce a diff; every earlier statement of the step succeeded. */
    ghost predicate FetchFails(releases: seq<AppRelease>, materials: seq<PipelineMaterial>, release: AppRelease,
                               newMaterials: seq<PipelineMaterial>, faults: set<Step>)
    {
      var h := PreviousHashes(releases, materials, release);
      SelectPrevious !in faults && h.Some? && SelectMaterials !in faults && FetchAll(newMaterials, h.value, gitSensor).None?
    }

    /**
      The lead-time table after step 5, whatever its outcome: one record for
      the oldest new commit is added exactly when the previous release and its
      materials were read, every diff was fetched, a commit older than `now`
      was found and its insert succeeded.
    */
    ghost function ResolvedLeadTimes(releases: seq<AppRelease>, materials: seq<PipelineMaterial>, release: AppRelease,
                                     newMaterials: seq<PipelineMaterial>, now: int, faults: set<Step>,
                                     leadTimes0: seq<LeadTime>, nextLeadTimeId0: int): seq<LeadTime>
    {
      var h := PreviousHashes(releases, materials, release);
      if SelectPrevious in faults || h.None? || SelectMaterials in faults then leadTimes0
      else
        var f := FetchAll(newMaterials, h.value, gitSensor);
        if f.None? then leadTimes0
        else
          var pick := Oldest(f.value.candidates, now).oldest;
          leadTimes0 +
            (if pick.Some? && InsertLeadTime !in faults
             then [LeadTimeRecord(release.id, release.triggerTime, pick.value).(id := nextLeadTimeId0)]
             else [])
    }

    /** The whole ingestion of an event fails: a statement of steps 1 to 3, or, for a release that is no rollback, of step 4 or 5. */
    ghost predicate IngestFails(releases: seq<AppRelease>, materials: seq<PipelineMaterial>, ev: DeploymentEvent, id: int,
                                now: int, faults: set<Step>)
    {
      var c := ClassifiedRelease(ev, id, now, RollForward);
      || ClassifyFails(faults)
      || (!Redeployed(releases, ev) &&
          (SupersedeFails(releases, c, faults) ||
           ResolveFails(releases, materials + MaterialsFor(ev, id), c, MaterialsFor(ev, id), now, faults)))
    }

    /**
      Step 5: diff the changed materials against the predecessor release, save
      a lead-time row for the oldest new commit if there is one, and record the
      change size with stage LeadTimeFetch. No predecessor is reported as no-rows.
    */
    method FetchAndSaveChangesFromGit(release: AppRelease, materials: seq<PipelineMaterial>, now: int, faults: set<Step>)
      returns (r: AppRelease, err: Option<Error>)
      requires db.Valid()
      modifies db`releases, db`leadTimes, db`nextLeadTimeId
      ensures db.Valid()
      ensures err.Some? ==> err == Some(NoRows) || err == Some(DbFailure) || err == Some(FetchFailure)
      ensures SameRelease(r, release) && r.releaseType == release.releaseType
      ensures err.Some? ==> db.releases == old(db.releases)
      ensures err == Some(NoRows) <==> SelectPrevious !in faults && PreviousHashes(old(db.releases), old(db.materials), release).None?
      ensures err == Some(NoRows) ==> r == release && db.leadTimes == old(db.leadTimes)
      ensures SelectPrevious in faults ||
              (PreviousHashes(old(db.releases), old(db.materials), release).Some? && SelectMaterials in faults) ==>
        r == release && err == Some(DbFailure) && db.leadTimes == old(db.leadTimes)
      ensures err == None ==>
        SelectPrevious !in faults && PreviousHashes(old(db.releases), old(db.materials), release).Some? && SelectMaterials !in faults
      ensures SelectPrevious !in faults && PreviousHashes(old(db.releases), old(db.materials), release).Some? &&
              SelectMaterials !in faults ==>
        SavedChanges(release, materials, PreviousHashes(old(db.releases), old(db.materials), release).value, now, faults,
                     old(db.releases), old(db.leadTimes), old(db.nextLeadTimeId), r, err, db.releases, db.leadTimes)
      ensures err.Some? && err != Some(NoRows) <==> ResolveFails(old(db.releases), old(db.materials), release, materials, now, faults)
      ensures err == Some(FetchFailure) <==> FetchFails(old(db.releases), old(db.materials), release, materials, faults)
      ensures db.leadTimes ==
        ResolvedLeadTimes(old(db.releases), old(db.materials), release, materials, now, faults, old(db.leadTimes), old(db.nextLeadTimeId))
    {
      r := release;
      if SelectPrevious in faults {
        return r, Some(DbFailure);
      }
      var previous := GetPreviousRelease(db.releases, release.appId, release.environmentId, release.id);
      if previous.None? {
        return r, Some(NoRows);
      }
      if SelectMaterials in faults {
        return r, Some(DbFailure);
      }
      var previousMaterials := FindByAppReleaseId(db.materials, previous.value.id);
      var oldMaterialCommitHash := BuildIndex(previousMaterials, MaterialIdOf, CommitHashOf);
      r, err := SaveChangesFromGit(release, materials, oldMaterialCommitHash, now, faults);
    }

    /**
      What step 5 does once the predecessor's hashes are known: the outcome of
      the scan, the lead-time row it saves and the release row it updates.
    */
    ghost predicate SavedChanges(release: AppRelease, materials: seq<PipelineMaterial>, oldHashes: map<int, string>,
                                 now: int, faults: set<Step>,
                                 releases0: seq<AppRelease>, leadTimes0: seq<LeadTime>, nextLeadTimeId0: int,
                                 r: AppRelease, err: Option<Error>, releases: seq<AppRelease>, leadTimes: seq<LeadTime>)
    {
      var f := FetchAll(materials, oldHashes, gitSensor);
      && (err == Some(FetchFailure) <==> f.None?)
      && (f.None? ==> r == release && releases == releases0 && leadTimes == leadTimes0)
      && (f.Some? ==>
        var pick := Oldest(f.value.candidates, now).oldest;
        && leadTimes == leadTimes0 +
             (if pick.Some? && InsertLeadTime !in faults
              then [LeadTimeRecord(release.id, release.triggerTime, pick.value).(id := nextLeadTimeId0)]
              else [])
        && (err == None <==> (pick.None? || InsertLeadTime !in faults) && UpdateStage !in faults)
        && (pick.Some? && InsertLeadTime in faults ==> r == release)
        && (pick.None? || InsertLeadTime !in faults ==>
              r == release.(updatedTime := now, processStage := LeadTimeFetch,
                            changeSizeLineAdded := SumOf(f.value.stats, Addition),
                            changeSizeLineDeleted := SumOf(f.value.stats, Deletion)))
        && (err == None ==> releases == ReplaceRow(releases0, r))
        && (err.Some? ==> err == Some(DbFailure) && releases == releases0))
    }

    /** The scan, the lead-time save and the final update of step 5. */
    method SaveChangesFromGit(release: AppRelease, materials: seq<PipelineMaterial>, oldHashes: map<int, string>,
                              now: int, faults: set<Step>)
      returns (r: AppRelease, err: Option<Error>)
      requires db.Valid()
      modifies db`releases, db`leadTimes, db`nextLeadTimeId
      ensures db.Valid()
      ensures SameRelease(r, release) && r.releaseType == release.releaseType
      ensures SavedChanges(release, materials, oldHashes, now, faults, old(db.releases), old(db.leadTimes),
                           old(db.nextLeadTimeId), r, err, db.releases, db.leadTimes)
    {
      r := release;
      var lineAdded, lineRemoved, oldestTime, oldest, oldestId;
      err, lineAdded, lineRemoved, oldestTime, oldest, oldestId := ScanChanges(materials, oldHashes, gitSensor, now);
      if err.Some? {
        return;
      }
      ghost var f := FetchAll(materials, oldHashes, gitSensor).value;
      SentinelMovedIffPicked(f.candidates, now);
      if now != oldestTime {
        var leadTime := LeadTimeRecord(release.id, release.triggerTime, Candidate(oldest.value, oldestId));
        var saved := db.SaveLeadTime(leadTime, InsertLeadTime in faults);
        if saved.Err? {
          return r, Some(saved.error);
        }
      }
      r := release.(updatedTime := now, processStage := LeadTimeFetch,
                    changeSizeLineAdded := lineAdded, changeSizeLineDeleted := lineRemoved);
      err := db.UpdateRelease(r, UpdateStage in faults);
    }

    /**
      The whole ingestion of one event. Errors of the steps are returned as is,
      except that no-rows from steps 4 and 5 means "nothing to do" and ends
      processing successfully.
    */
    method ProcessDeploymentEvent(ev: DeploymentEvent, now: int, faults: set<Step>) returns (r: Result<AppRelease>)
      requires db.Valid()
      modifies db`releases, db`nextReleaseId, db`materials, db`leadTimes, db`nextLeadTimeId
      ensures db.Valid()
      ensures r.Err? ==> r.error == DbFailure || r.error == FetchFailure
      ensures r.Err? <==> IngestFails(old(db.releases), old(db.materials), ev, old(db.nextReleaseId), now, faults)
      ensures var id := old(db.nextReleaseId);
        r == Err(FetchFailure) <==>
          && !ClassifyFails(faults) && !Redeployed(old(db.releases), ev)
          && !SupersedeFails(old(db.releases), ClassifiedRelease(ev, id, now, RollForward), faults)
          && FetchFails(old(db.releases), old(db.materials) + MaterialsFor(ev, id), ClassifiedRelease(ev, id, now, RollForward),
                        MaterialsFor(ev, id), faults)
      ensures InsertRelease in faults ==>
        r == Err(DbFailure) && db.releases == old(db.releases) && db.materials == old(db.materials)
      ensures InsertRelease !in faults ==>
        db.materials == old(db.materials) + (if InsertMaterials in faults then [] else MaterialsFor(ev, old(db.nextReleaseId)))
      ensures ClassifyFails(faults) && InsertRelease !in faults ==>
        db.releases == old(db.releases) + [InitialRelease(ev, now).(id := old(db.nextReleaseId))]
      ensures ClassifyFails(faults) || Redeployed(old(db.releases), ev) ==> db.leadTimes == old(db.leadTimes)
      ensures !ClassifyFails(faults) && !Redeployed(old(db.releases), ev) ==>
        var id := old(db.nextReleaseId);
        var c := ClassifiedRelease(ev, id, now, RollForward);
        && (SupersedeFails(old(db.releases), c, faults) ==>
              db.releases == SupersedeFailedTable(old(db.releases), c, now, faults) && db.leadTimes == old(db.leadTimes))
        && (!SupersedeFails(old(db.releases), c, faults) ==>
              db.leadTimes == ResolvedLeadTimes(old(db.releases), old(db.materials) + MaterialsFor(ev, id), c, MaterialsFor(ev, id),
                                                now, faults, old(db.leadTimes), old(db.nextLeadTimeId)))
        && (r.Err? && !SupersedeFails(old(db.releases), c, faults) ==>
              db.releases == Superseded(old(db.releases), c, now) + [AfterSupersede(old(db.releases), c, now)])
      ensures r.Ok? ==>
        && FromEvent(r.value, ev)
        && r.value.id == old(db.nextReleaseId)
        && db.materials == old(db.materials) + MaterialsFor(ev, r.value.id)
        && db.releases ==
             (if r.value.releaseType == RollBack then old(db.releases) else Superseded(old(db.releases), r.value, now)) +
             [r.value]
      ensures r.Ok? ==> (r.value.releaseType == RollBack <==> Redeployed(old(db.releases), ev))
      ensures r.Ok? && r.value.releaseType == RollBack ==>
        && r.value.processStage == ReleaseTypeDetermined
        && r.value.changeSizeLineAdded == 0 && r.value.changeSizeLineDeleted == 0
        && db.leadTimes == old(db.leadTimes)
      ensures r.Ok? && r.value.releaseType != RollBack ==>
        && (r.value.releaseType == Patch || r.value.releaseType == RollForward)
        && (r.value.releaseType == Patch <==> RecentPrevious(old(db.releases), r.value).Some?)
        && (r.value.processStage == LeadTimeFetch <==>
            GetPreviousRelease(old(db.releases), ev.applicationId, ev.environmentId, r.value.id).Some?)
        && (r.value.processStage == LeadTimeFetch || r.value.processStage == ReleaseTypeDetermined)
      ensures r.Ok? && r.value.processStage == LeadTimeFetch ==>
        var prev := GetPreviousRelease(old(db.releases), ev.applicationId, ev.environmentId, r.value.id).value;
        var f := FetchAll(MaterialsFor(ev, r.value.id), OldHashes(FindByAppReleaseId(db.materials, prev.id)), gitSensor);
        && f.Some?
        && r.value.changeSizeLineAdded == SumOf(f.value.stats, Addition)
        && r.value.changeSizeLineDeleted == SumOf(f.value.stats, Deletion)
        && var pick := Oldest(f.value.candidates, now).oldest;
           db.leadTimes == old(db.leadTimes) +
             (if pick.Some?
              then [LeadTimeRecord(r.value.id, ev.triggerTime, pick.value).(id := old(db.nextLeadTimeId))]
              else [])
      ensures r.Ok? && r.value.processStage != LeadTimeFetch ==> db.leadTimes == old(db.leadTimes)
    {
      var appRelease, materials, err := SaveAndClassify(ev, now, faults);
      if err.Some? {
        return Err(err.value);
      }
      if appRelease.releaseType == RollBack {
        return Ok(appRelease);
      }
      r := CompleteRelease(old(db.releases), ev, appRelease, materials, now, faults);
      if r.Ok? {
        assert SameRelease(r.value, appRelease);
      }
    }

    /** Steps 1 to 3: save the release and its materials, then classify the release. */
    method SaveAndClassify(ev: DeploymentEvent, now: int, faults: set<Step>)
      returns (appRelease: AppRelease, materials: seq<PipelineMaterial>, err: Option<Error>)
      requires db.Valid()
      modifies db`releases, db`nextReleaseId, db`materials
      ensures db.Valid()
      ensures err.Some? ==> err == Some(DbFailure)
      ensures err.Some? <==> ClassifyFails(faults)
      ensures InsertRelease in faults ==> db.releases == old(db.releases) && db.materials == old(db.materials)
      ensures err.Some? && InsertRelease !in faults ==>
        && db.releases == old(db.releases) + [InitialRelease(ev, now).(id := old(db.nextReleaseId))]
        && db.materials == old(db.materials) + (if InsertMaterials in faults then [] else MaterialsFor(ev, old(db.nextReleaseId)))
      ensures err.None? ==>
        appRelease ==
          ClassifiedRelease(ev, old(db.nextReleaseId), now, if Redeployed(old(db.releases), ev) then RollBack else RollForward)
      ensures err.None? ==>
        && FromEvent(appRelease, ev)
        && appRelease.id == old(db.nextReleaseId)
        && (forall i :: 0 <= i < |old(db.releases)| ==> old(db.releases)[i].id < appRelease.id)
        && materials == MaterialsFor(ev, appRelease.id)
        && db.materials == old(db.materials) + materials
        && db.releases == old(db.releases) + [appRelease]
        && (appRelease.releaseType == RollBack <==> Redeployed(old(db.releases), ev))
        && (appRelease.releaseType == RollBack || appRelease.releaseType == RollForward)
        && appRelease.processStage == ReleaseTypeDetermined
        && appRelease.changeSizeLineAdded == 0 && appRelease.changeSizeLineDeleted == 0
    {
      var saved := SaveAppRelease(ev, now, faults);
      if saved.Err? {
        return InitialRelease(ev, now), [], Some(saved.error);
      }
      ghost var before := old(db.releases);
      assert db.releases == before + [saved.value];
      materials, err := SavePipelineMaterial(ev, saved.value, faults);
      if err.Some? {
        return saved.value, materials, err;
      }
      DuplicateAfterInsert(before, saved.value);
      appRelease, err := CheckAndUpdateReleaseType(saved.value, now, faults);
      if err.None? {
        ReplaceAppended(before, saved.value, appRelease);
      }
    }

    /**
      The steps after a release is classified as not a rollback: mark a recent
      predecessor failed (making this release a Patch), then resolve change size
      and lead time. No-rows from either step is not an error.
    */
    method CompleteRelease(ghost before: seq<AppRelease>, ev: DeploymentEvent, appRelease: AppRelease, materials: seq<PipelineMaterial>,
                           now: int, faults: set<Step>)
      returns (r: Result<AppRelease>)
      requires db.Valid() && IdsIncreasing(before)
      requires db.releases == before + [appRelease]
      requires forall i :: 0 <= i < |before| ==> before[i].id < appRelease.id
      requires materials == MaterialsFor(ev, appRelease.id)
      requires appRelease.releaseType == RollForward && appRelease.processStage == ReleaseTypeDetermined
      modifies db`releases, db`leadTimes, db`nextLeadTimeId
      ensures db.Valid()
      ensures r.Err? ==> r.error == DbFailure || r.error == FetchFailure
      ensures r.Err? <==>
        SupersedeFails(before, appRelease, faults) || ResolveFails(before, old(db.materials), appRelease, materials, now, faults)
      ensures r == Err(FetchFailure) <==>
        !SupersedeFails(before, appRelease, faults) && FetchFails(before, old(db.materials), appRelease, materials, faults)
      ensures SupersedeFails(before, appRelease, faults) ==>
        db.releases == SupersedeFailedTable(before, appRelease, now, faults) && db.leadTimes == old(db.leadTimes)
      ensures !SupersedeFails(before, appRelease, faults) ==>
        db.leadTimes == ResolvedLeadTimes(before, old(db.materials), appRelease, materials, now, faults,
                                          old(db.leadTimes), old(db.nextLeadTimeId))
      ensures r.Err? && !SupersedeFails(before, appRelease, faults) ==>
        db.releases == Superseded(before, appRelease, now) + [AfterSupersede(before, appRelease, now)]
      ensures r.Ok? ==> db.releases == Superseded(before, r.value, now) + [r.value] && SameRelease(r.value, appRelease)
      ensures r.Ok? ==>
        && (r.value.releaseType == Patch <==> RecentPrevious(before, r.value).Some?)
        && (r.value.releaseType != Patch ==> r.value.releaseType == RollForward)
      ensures r.Ok? ==>
        (r.value.processStage == LeadTimeFetch <==>
         GetPreviousRelease(before, appRelease.appId, appRelease.environmentId, appRelease.id).Some?)
      ensures r.Ok? && r.value.processStage != LeadTimeFetch ==>
        && r.value.processStage == ReleaseTypeDetermined
        && r.value.changeSizeLineAdded == appRelease.changeSizeLineAdded
        && r.value.changeSizeLineDeleted == appRelease.changeSizeLineDeleted
        && db.leadTimes == old(db.leadTimes)
      ensures r.Ok? && r.value.processStage == LeadTimeFetch ==>
        var prev := GetPreviousRelease(before, appRelease.appId, appRelease.environmentId, appRelease.id).value;
        var f := FetchAll(materials, OldHashes(FindByAppReleaseId(old(db.materials), prev.id)), gitSensor);
        && f.Some?
        && r.value.changeSizeLineAdded == SumOf(f.value.stats, Addition)
        && r.value.changeSizeLineDeleted == SumOf(f.value.stats, Deletion)
        && var pick := Oldest(f.value.candidates, now).oldest;
           db.leadTimes == old(db.leadTimes) +
             (if pick.Some?
              then [LeadTimeRecord(appRelease.id, appRelease.triggerTime, pick.value).(id := old(db.nextLeadTimeId))]
              else [])
    {
      var release, err := SupersedePrevious(before, appRelease, now, faults);
      if err.Some? {
        return Err(err.value);
      }
      ghost var marked := Superseded(before, appRelease, now);
      SupersededKeepsIds(before, appRelease, now, appRelease.id);
      SupersededKeepsPrevious(before, appRelease, now, appRelease.appId, appRelease.environmentId, appRelease.id);
      ResolveIgnoresSupersede(before, appRelease, release, old(db.materials), materials, now, faults,
                              old(db.leadTimes), old(db.nextLeadTimeId));
      r := ResolveRelease(marked, release, materials, now, faults);
      if r.Ok? {
        SameKeySameSuperseded(before, appRelease, r.value, now);
      }
    }

    /** Step 5 fails, and saves lead times, alike before and after step 4 marked the predecessor and patched the release. */
    lemma ResolveIgnoresSupersede(before: seq<AppRelease>, appRelease: AppRelease, release: AppRelease,
                                  materials: seq<PipelineMaterial>, newMaterials: seq<PipelineMaterial>, now: int,
                                  faults: set<Step>, leadTimes0: seq<LeadTime>, nextLeadTimeId0: int)
      requires IdsIncreasing(before) && SameRelease(release, appRelease)
      ensures var marked := Superseded(before, appRelease, now);
        && (ResolveFails(marked, materials, release, newMaterials, now, faults) <==>
            ResolveFails(before, materials, appRelease, newMaterials, now, faults))
        && (FetchFails(marked, materials, release, newMaterials, faults) <==>
            FetchFails(before, materials, appRelease, newMaterials, faults))
        && ResolvedLeadTimes(marked, materials, release, newMaterials, now, faults, leadTimes0, nextLeadTimeId0) ==
           ResolvedLeadTimes(before, materials, appRelease, newMaterials, now, faults, leadTimes0, nextLeadTimeId0)
    {
      SupersededKeepsPrevious(before, appRelease, now, appRelease.appId, appRelease.environmentId, appRelease.id);
      assert PreviousHashes(Superseded(before, appRelease, now), materials, release) == PreviousHashes(before, materials, appRelease);
    }

    /** Step 4 inside the ingestion of an event: no-rows (no recent predecessor) is not an error. */
    method SupersedePrevious(ghost before: seq<AppRelease>, appRelease: AppRelease, now: int, faults: set<Step>)
      returns (release: AppRelease, err: Option<Error>)
      requires db.Valid()
      requires db.releases == before + [appRelease]
      requires forall i :: 0 <= i < |before| ==> before[i].id < appRelease.id
      modifies db`releases
      ensures db.Valid()
      ensures err.Some? ==> err == Some(DbFailure)
      ensures err.Some? <==> SupersedeFails(before, appRelease, faults)
      ensures err.Some? ==> db.releases == SupersedeFailedTable(before, appRelease, now, faults)
      ensures err.None? ==>
        && release == AfterSupersede(before, appRelease, now)
        && db.releases == Superseded(before, appRelease, now) + [release]
    {
      PreviousIgnoresCurrent(before, appRelease, appRelease.triggerTime - FailureWindow);
      assert RecentPrevious(db.releases, appRelease) == RecentPrevious(before, appRelease);
      release, err := MarkPreviousTriggerFail(appRelease, now, faults);
      if err == Some(NoRows) {
        err := None;
      } else if err == None {
        MarkedTable(before, appRelease, now, release);
      } else if SelectRecent !in faults && UpdatePrevious !in faults {
        MarkedPrevious(before, appRelease, now);
      }
    }

    /** Step 5 inside the ingestion of an event: no-rows (no predecessor) ends it successfully. */
    method ResolveRelease(ghost marked: seq<AppRelease>, release: AppRelease, materials: seq<PipelineMaterial>,
                          now: int, faults: set<Step>)
      returns (r: Result<AppRelease>)
      requires db.Valid()
      requires db.releases == marked + [release]
      requires forall i :: 0 <= i < |marked| ==> marked[i].id < release.id
      requires release.processStage == ReleaseTypeDetermined
      modifies db`releases, db`leadTimes, db`nextLeadTimeId
      ensures db.Valid()
      ensures r.Err? <==> ResolveFails(marked, old(db.materials), release, materials, now, faults)
      ensures r == Err(FetchFailure) <==> FetchFails(marked, old(db.materials), release, materials, faults)
      ensures r.Err? ==> (r.error == DbFailure || r.error == FetchFailure) && db.releases == old(db.releases)
      ensures db.leadTimes ==
        ResolvedLeadTimes(marked, old(db.materials), release, materials, now, faults, old(db.leadTimes), old(db.nextLeadTimeId))
      ensures r.Ok? ==>
        && db.releases == marked + [r.value]
        && SameRelease(r.value, release) && r.value.releaseType == release.releaseType
      ensures r.Ok? ==>
        (r.value.processStage == LeadTimeFetch <==>
         GetPreviousRelease(marked, release.appId, release.environmentId, release.id).Some?)
      ensures r.Ok? && r.value.processStage != LeadTimeFetch ==>
        && r.value == release
        && db.leadTimes == old(db.leadTimes)
      ensures r.Ok? && r.value.processStage == LeadTimeFetch ==>
        var prev := GetPreviousRelease(marked, release.appId, release.environmentId, release.id).value;
        var f := FetchAll(materials, OldHashes(FindByAppReleaseId(old(db.materials), prev.id)), gitSensor);
        && f.Some?
        && r.value.changeSizeLineAdded == SumOf(f.value.stats, Addition)
        && r.value.changeSizeLineDeleted == SumOf(f.value.stats, Deletion)
        && var pick := Oldest(f.value.candidates, now).oldest;
           db.leadTimes == old(db.leadTimes) +
             (if pick.Some?
              then [LeadTimeRecord(release.id, release.triggerTime, pick.value).(id := old(db.nextLeadTimeId))]
              else [])
    {
      PreviousIgnoresCurrent(marked, release, 0);
      assert PreviousHashes(db.releases, db.materials, release) == PreviousHashes(marked, db.materials, release);
      var resolved, err := FetchAndSaveChangesFromGit(release, materials, now, faults);
      if err.Some? && err != Some(NoRows) {
        return Err(err.value);
      }
      if err == None {
        ReplaceAppended(marked, release, resolved);
      }
      r := Ok(resolved);
    }

    /** Deletes everything stored for one (application, environment); true exactly when the transaction committed. */
    method CleanAppDataForEnvironment(appId: int, environmentId: int, faults: CleanupFaults)
      returns (ok: bool, err: Option<Error>)
      requires db.Valid()
      modifies db`releases, db`materials, db`leadTimes
      ensures db.Valid()
      ensures ok <==> err.None?
      ensures !ok <==> faults.leadTimeDelete || faults.materialDelete || faults.releaseDelete
      ensures !ok ==> err == Some(DbFailure)
      ensures !ok ==> db.releases == old(db.releases) && db.materials == old(db.materials) && db.leadTimes == old(db.leadTimes)
      ensures ok ==>
        var owners := PairIds(old(db.releases), appId, environmentId);
        && db.leadTimes == LeadTimes.DeleteOwnedBy(old(db.leadTimes), owners)
        && db.materials == PipelineMaterials.DeleteOwnedBy(old(db.materials), owners)
        && db.releases == DeletePair(old(db.releases), appId, environmentId)
    {
      err := db.CleanAppDataForEnvironment(appId, environmentId, faults);
      ok := err.None?;
    }
  }
}
