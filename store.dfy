/**
  The database the services share: the three tables as sequences of rows, in
  insertion order, and the serial counters that hand out primary keys. Each
  writing method takes a flag saying whether the database reports an error for
  that statement; a failed statement changes nothing.
*/
module Store {
  import opened Wrappers
  import opened AppReleases
  import opened PipelineMaterials
  import opened LeadTimes

  /** Which statements of the cleanup transaction the database fails. */
  datatype CleanupFaults = CleanupFaults(leadTimeDelete: bool, materialDelete: bool, releaseDelete: bool)

  class Store {
    var releases: seq<AppRelease>
    var materials: seq<PipelineMaterial>
    var leadTimes: seq<LeadTime>
    var nextReleaseId: int
    var nextLeadTimeId: int

    /** Release ids are handed out in increasing order and never reused. */
    ghost predicate Valid()
      reads this
    {
      IdsIncreasing(releases) && IdsBelow(releases, nextReleaseId)
    }

    constructor ()
      ensures Valid()
      ensures releases == [] && materials == [] && leadTimes == []
    {
      releases, materials, leadTimes := [], [], [];
      nextReleaseId, nextLeadTimeId := 1, 1;
    }

    /** INSERT INTO app_release; the database assigns the id. */
    method SaveRelease(row: AppRelease, fail: bool) returns (r: Result<AppRelease>)
      requires Valid()
      modifies this`releases, this`nextReleaseId
      ensures Valid()
      ensures fail ==> r == Err(DbFailure) && releases == old(releases) && nextReleaseId == old(nextReleaseId)
      ensures !fail ==> r == Ok(row.(id := old(nextReleaseId))) && releases == old(releases) + [r.value]
    {
      if fail {
        return Err(DbFailure);
      }
      var saved := row.(id := nextReleaseId);
      IdsBelowAll(releases, nextReleaseId);
      AppendKeepsIds(releases, saved);
      forall i | 0 <= i < |releases| + 1
        ensures IdAt(releases + [saved], i) < nextReleaseId + 1
      {
      }
      releases := releases + [saved];
      nextReleaseId := nextReleaseId + 1;
      r := Ok(saved);
    }

    /** UPDATE app_release WHERE id = row.id */
    method UpdateRelease(row: AppRelease, fail: bool) returns (err: Option<Error>)
      requires Valid()
      modifies this`releases
      ensures Valid()
      ensures fail ==> err == Some(DbFailure) && releases == old(releases)
      ensures !fail ==> err == None && releases == ReplaceRow(old(releases), row)
    {
      if fail {
        return Some(DbFailure);
      }
      ReplaceRowKeepsIds(releases, row);
      forall i | 0 <= i < |releases|
        ensures IdAt(ReplaceRow(releases, row), i) < nextReleaseId
      {
        assert IdAt(releases, i) < nextReleaseId;
      }
      releases := ReplaceRow(releases, row);
      err := None;
    }

    /** INSERT INTO pipeline_material, every given row in one statement. */
    method SaveMaterials(rows: seq<PipelineMaterial>, fail: bool) returns (err: Option<Error>)
      modifies this`materials
      ensures fail ==> err == Some(DbFailure) && materials == old(materials)
      ensures !fail ==> err == None && materials == old(materials) + rows
    {
      if fail {
        return Some(DbFailure);
      }
      materials := materials + rows;
      err := None;
    }

    /** INSERT INTO lead_time; the database assigns the id. */
    method SaveLeadTime(row: LeadTime, fail: bool) returns (r: Result<LeadTime>)
      modifies this`leadTimes, this`nextLeadTimeId
      ensures fail ==> r == Err(DbFailure) && leadTimes == old(leadTimes) && nextLeadTimeId == old(nextLeadTimeId)
      ensures !fail ==> r == Ok(row.(id := old(nextLeadTimeId))) && leadTimes == old(leadTimes) + [r.value]
    {
      if fail {
        return Err(DbFailure);
      }
      var saved := row.(id := nextLeadTimeId);
      leadTimes := leadTimes + [saved];
      nextLeadTimeId := nextLeadTimeId + 1;
      r := Ok(saved);
    }

    /**
      The cleanup transaction for one (application, environment): lead times,
      then materials, then releases. The first two deletes find their rows by
      joining on the releases, so they run while the releases still exist.
      Nothing is committed unless all three statements succeed.
    */
    method CleanAppDataForEnvironment(appId: int, environmentId: int, faults: CleanupFaults) returns (err: Option<Error>)
      requires Valid()
      modifies this`releases, this`materials, this`leadTimes
      ensures Valid()
      ensures err.Some? <==> faults.leadTimeDelete || faults.materialDelete || faults.releaseDelete
      ensures err.Some? ==> err == Some(DbFailure)
      ensures err.Some? ==> releases == old(releases) && materials == old(materials) && leadTimes == old(leadTimes)
      ensures err.None? ==>
        var owners := PairIds(old(releases), appId, environmentId);
        && leadTimes == LeadTimes.DeleteOwnedBy(old(leadTimes), owners)
        && materials == PipelineMaterials.DeleteOwnedBy(old(materials), owners)
        && releases == DeletePair(old(releases), appId, environmentId)
    {
      var owners := PairIds(releases, appId, environmentId);
      if faults.leadTimeDelete {
        return Some(DbFailure);
      }
      var leadTimes' := LeadTimes.DeleteOwnedBy(leadTimes, owners);
      if faults.materialDelete {
        return Some(DbFailure);
      }
      var materials' := PipelineMaterials.DeleteOwnedBy(materials, owners);
      var deleteError := if faults.releaseDelete then Some(DbFailure) else None;
      var releases' := if deleteError.None? then DeletePair(releases, appId, environmentId) else releases;
      err := ReleaseDeleteResult(deleteError);
      if err.Some? {
        return;
      }
      FilterKeepsIdsIncreasing(releases, x => !InPair(x, appId, environmentId));
      IdsBelowSubset(releases, releases', nextReleaseId);
      releases, materials, leadTimes := releases', materials', leadTimes';
    }
  }

  /**
    Cleanup removes exactly the pair's rows: every release of another pair stays,
    and so does every material or lead time owned by a release of another pair.
  */
  lemma CleanupKeepsOtherPairs(
    releases: seq<AppRelease>, materials: seq<PipelineMaterial>, leadTimes: seq<LeadTime>,
    appId: int, environmentId: int, owner: AppRelease)
    requires IdsIncreasing(releases)
    requires owner in releases && !InPair(owner, appId, environmentId)
    ensures owner in DeletePair(releases, appId, environmentId)
    ensures forall m :: m in materials && m.appReleaseId == owner.id ==>
      m in PipelineMaterials.DeleteOwnedBy(materials, PairIds(releases, appId, environmentId))
    ensures forall l :: l in leadTimes && l.appReleaseId == owner.id ==>
      l in LeadTimes.DeleteOwnedBy(leadTimes, PairIds(releases, appId, environmentId))
  {
    var owners := PairIds(releases, appId, environmentId);
    forall x | x in releases && InPair(x, appId, environmentId)
      ensures x.id != owner.id
    {
      var i :| 0 <= i < |releases| && releases[i] == x;
      var j :| 0 <= j < |releases| && releases[j] == owner;
      IdsOrdered(releases, i, j);
    }
    assert owner.id !in owners;
  }
}
