/** What the git-sensor returns for a range of commits of one pipeline material. */
module GitSensor {
  import opened Wrappers

  /** The parts of a commit the core reads; dates are whole minutes. */
  datatype Commit = Commit(hashLong: string, authorDate: int, committerDate: int)

  datatype FileStat = FileStat(name: string, addition: int, deletion: int)

  datatype GitChanges = GitChanges(commits: seq<Commit>, fileStats: seq<FileStat>)

  datatype ReleaseChangesRequest = ReleaseChangesRequest(pipelineMaterialId: int, oldCommit: string, newCommit: string)

  /** The remote call: the changes between the two commits, or None when the call fails. */
  type ChangesOracle = ReleaseChangesRequest -> Option<GitChanges>

  function Addition(f: FileStat): int { f.addition }
  function Deletion(f: FileStat): int { f.deletion }
}
