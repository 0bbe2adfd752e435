/** The lead_time table: at most one attribution record per release. */
module LeadTimes {
  import opened Collections

  /** Times and the lead time itself are whole minutes. */
  datatype LeadTime = LeadTime(
    id: int,
    appReleaseId: int,
    pipelineMaterialId: int,
    commitHash: string,
    commitTime: int,
    leadTime: int)

  function AppReleaseIdOf(l: LeadTime): int { l.appReleaseId }
  function LeadTimeOf(l: LeadTime): int { l.leadTime }

  /** The ids are release ids: the filter is on app_release_id, not on the record's own id. */
  function FindByIds(rows: seq<LeadTime>, ids: seq<int>): (r: seq<LeadTime>)
    ensures forall l :: l in r <==> l in rows && l.appReleaseId in ids
    ensures forall l :: multiset(r)[l] == if l.appReleaseId in ids then multiset(rows)[l] else 0
  {
    Filter(rows, (l: LeadTime) => l.appReleaseId in ids)
  }

  /** The rows left after deleting those whose owning release is one of `ownerIds`. */
  function DeleteOwnedBy(rows: seq<LeadTime>, ownerIds: set<int>): (r: seq<LeadTime>)
    ensures forall l :: l in r <==> l in rows && l.appReleaseId !in ownerIds
    ensures forall l :: multiset(r)[l] == if l.appReleaseId in ownerIds then 0 else multiset(rows)[l]
  {
    Filter(rows, (l: LeadTime) => l.appReleaseId !in ownerIds)
  }
}
