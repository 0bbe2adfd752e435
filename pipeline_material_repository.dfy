/** The pipeline_material table: one row per pipeline input of a release. */
module PipelineMaterials {
  import opened Collections

  datatype PipelineMaterial = PipelineMaterial(pipelineMaterialId: int, commitHash: string, appReleaseId: int)

  function AppReleaseIdOf(m: PipelineMaterial): int { m.appReleaseId }
  function MaterialIdOf(m: PipelineMaterial): int { m.pipelineMaterialId }
  function CommitHashOf(m: PipelineMaterial): string { m.commitHash }

  /** WHERE app_release_id = ? : every row of that release, with its multiplicity, and no other row. */
  function FindByAppReleaseId(rows: seq<PipelineMaterial>, appReleaseId: int): (r: seq<PipelineMaterial>)
    ensures forall m :: m in r <==> m in rows && m.appReleaseId == appReleaseId
    ensures forall m :: multiset(r)[m] == if m.appReleaseId == appReleaseId then multiset(rows)[m] else 0
  {
    Filter(rows, (m: PipelineMaterial) => m.appReleaseId == appReleaseId)
  }

  /** WHERE app_release_id IN (?) */
  function FindByAppReleaseIds(rows: seq<PipelineMaterial>, appReleaseIds: seq<int>): (r: seq<PipelineMaterial>)
    ensures forall m :: m in r <==> m in rows && m.appReleaseId in appReleaseIds
    ensures forall m :: multiset(r)[m] == if m.appReleaseId in appReleaseIds then multiset(rows)[m] else 0
  {
    Filter(rows, (m: PipelineMaterial) => m.appReleaseId in appReleaseIds)
  }

  /** The rows left after deleting those whose owning release is one of `ownerIds`. */
  function DeleteOwnedBy(rows: seq<PipelineMaterial>, ownerIds: set<int>): (r: seq<PipelineMaterial>)
    ensures forall m :: m in r <==> m in rows && m.appReleaseId !in ownerIds
    ensures forall m :: multiset(r)[m] == if m.appReleaseId in ownerIds then 0 else multiset(rows)[m]
  {
    Filter(rows, (m: PipelineMaterial) => m.appReleaseId !in ownerIds)
  }
}
