/**
  How a new release's change size and lead time are resolved against its
  predecessor: every material whose commit moved since the predecessor release
  is diffed by the git-sensor, the added and deleted lines of all returned file
  stats are summed, and the commit with the strictly earliest author date
  among all returned commits is kept.
*/
module LeadTimeResolution {
  import opened Wrappers
  import opened Collections
  import opened GitSensor
  import opened PipelineMaterials
  import opened LeadTimes

  /** A commit together with the material whose diff returned it. */
  datatype Candidate = Candidate(commit: Commit, materialId: int)

  /** Everything the git-sensor returned over the changed materials, in material order. */
  datatype Fetched = Fetched(stats: seq<FileStat>, candidates: seq<Candidate>)

  /** The state of the oldest-commit scan: the current oldest author date (starting at `now`) and its commit. */
  datatype Pick = Pick(time: int, oldest: Option<Candidate>)

  /** The predecessor's commit hash per material id, as the Go map built from its materials. */
  function OldHashes(previousMaterials: seq<PipelineMaterial>): map<int, string>
  {
    IndexByLast(previousMaterials, MaterialIdOf, CommitHashOf)
  }

  /** A material is diffed iff the predecessor had it and at a different commit. */
  predicate Changed(m: PipelineMaterial, oldHashes: map<int, string>)
  {
    m.pipelineMaterialId in oldHashes && oldHashes[m.pipelineMaterialId] != m.commitHash
  }

  function RequestFor(m: PipelineMaterial, oldHashes: map<int, string>): (q: ReleaseChangesRequest)
    requires Changed(m, oldHashes)
    ensures q.pipelineMaterialId == m.pipelineMaterialId && q.newCommit == m.commitHash
    ensures q.oldCommit != q.newCommit
  {
    ReleaseChangesRequest(m.pipelineMaterialId, oldHashes[m.pipelineMaterialId], m.commitHash)
  }

  function Tagged(commits: seq<Commit>, materialId: int): (r: seq<Candidate>)
    ensures |r| == |commits|
    ensures forall i :: 0 <= i < |commits| ==> r[i] == Candidate(commits[i], materialId)
  {
    seq(|commits|, i requires 0 <= i < |commits| => Candidate(commits[i], materialId))
  }

  /** The diffs of all changed materials, or None as soon as one of them cannot be fetched. */
  function FetchAll(materials: seq<PipelineMaterial>, oldHashes: map<int, string>, git: ChangesOracle): Option<Fetched>
  {
    if materials == [] then Some(Fetched([], []))
    else
      var m := materials[|materials| - 1];
      match FetchAll(materials[..|materials| - 1], oldHashes, git)
      case None => None
      case Some(f) =>
        if !Changed(m, oldHashes) then Some(f)
        else match git(RequestFor(m, oldHashes))
          case None => None
          case Some(ch) => Some(Fetched(f.stats + ch.fileStats, f.candidates + Tagged(ch.commits, m.pipelineMaterialId)))
  }

  /**
    The oldest-commit scan over `cands`, starting from the sentinel `now`: a
    candidate replaces the current pick only when its author date is strictly
    earlier. The first candidate with the minimal date wins, and nothing is
    picked when no date is before `now`.
  */
  function Oldest(cands: seq<Candidate>, now: int): (p: Pick)
    ensures p.time <= now
    ensures p.oldest.None? ==> p.time == now && forall i :: 0 <= i < |cands| ==> cands[i].commit.authorDate >= now
    ensures p.oldest.Some? ==> p.time < now && p.time == p.oldest.value.commit.authorDate
    ensures p.oldest.Some? ==>
      exists i :: 0 <= i < |cands| && cands[i] == p.oldest.value &&
        forall j :: 0 <= j < i ==> cands[j].commit.authorDate > p.time
    ensures forall i :: 0 <= i < |cands| ==> p.time <= cands[i].commit.authorDate
  {
    if cands == [] then Pick(now, None)
    else
      var c := cands[|cands| - 1];
      var p := Oldest(cands[..|cands| - 1], now);
      if p.time > c.commit.authorDate then Pick(c.commit.authorDate, Some(c)) else p
  }

  /** One more candidate: it replaces the pick iff its author date is strictly earlier. */
  lemma OldestAppend(cands: seq<Candidate>, c: Candidate, now: int)
    ensures Oldest(cands + [c], now) ==
      if Oldest(cands, now).time > c.commit.authorDate then Pick(c.commit.authorDate, Some(c)) else Oldest(cands, now)
  {
    assert (cands + [c])[..|cands|] == cands;
  }

  /** The sentinel moved off `now` exactly when a commit was picked. */
  lemma SentinelMovedIffPicked(cands: seq<Candidate>, now: int)
    ensures Oldest(cands, now).time != now <==> Oldest(cands, now).oldest.Some?
  {
  }

  /** The lead-time record saved for a release once a commit is picked. */
  function LeadTimeRecord(appReleaseId: int, triggerTime: int, c: Candidate): (l: LeadTime)
    ensures l.appReleaseId == appReleaseId && l.pipelineMaterialId == c.materialId
    ensures l.commitHash == c.commit.hashLong && l.commitTime == c.commit.committerDate
    ensures l.leadTime + c.commit.authorDate == triggerTime
  {
    LeadTime(0, appReleaseId, c.materialId, c.commit.hashLong, c.commit.committerDate, triggerTime - c.commit.authorDate)
  }

  /** A fetch fails iff some changed material's diff cannot be fetched. */
  lemma {:induction false} FetchFailsIff(materials: seq<PipelineMaterial>, oldHashes: map<int, string>, git: ChangesOracle)
    ensures FetchAll(materials, oldHashes, git).None? <==>
      exists i :: 0 <= i < |materials| && Changed(materials[i], oldHashes) && git(RequestFor(materials[i], oldHashes)).None?
  {
    if materials != [] {
      var init := materials[..|materials| - 1];
      FetchFailsIff(init, oldHashes, git);
      if exists i :: 0 <= i < |init| && Changed(init[i], oldHashes) && git(RequestFor(init[i], oldHashes)).None? {
        var i :| 0 <= i < |init| && Changed(init[i], oldHashes) && git(RequestFor(init[i], oldHashes)).None?;
        assert materials[i] == init[i];
      }
      if exists i :: 0 <= i < |materials| && Changed(materials[i], oldHashes) && git(RequestFor(materials[i], oldHashes)).None? {
        var i :| 0 <= i < |materials| && Changed(materials[i], oldHashes) && git(RequestFor(materials[i], oldHashes)).None?;
        if i < |init| {
          assert init[i] == materials[i];
        }
      }
    }
  }

  /** Every candidate commit came from the diff of a changed material, tagged with that material's id. */
  lemma {:induction false} CandidatesFromChangedMaterials(materials: seq<PipelineMaterial>, oldHashes: map<int, string>, git: ChangesOracle)
    requires FetchAll(materials, oldHashes, git).Some?
    ensures forall c :: c in FetchAll(materials, oldHashes, git).value.candidates ==>
      exists m :: m in materials && Changed(m, oldHashes) && m.pipelineMaterialId == c.materialId &&
        git(RequestFor(m, oldHashes)).Some? && c.commit in git(RequestFor(m, oldHashes)).value.commits
  {
    if materials != [] {
      var init := materials[..|materials| - 1];
      var m := materials[|materials| - 1];
      CandidatesFromChangedMaterials(init, oldHashes, git);
      var f := FetchAll(init, oldHashes, git).value;
      forall c | c in FetchAll(materials, oldHashes, git).value.candidates
        ensures exists m' :: (m' in materials && Changed(m', oldHashes) && m'.pipelineMaterialId == c.materialId &&
                              git(RequestFor(m', oldHashes)).Some? && c.commit in git(RequestFor(m', oldHashes)).value.commits)
      {
        if c in f.candidates {
          var m' :| m' in init && Changed(m', oldHashes) && m'.pipelineMaterialId == c.materialId &&
            git(RequestFor(m', oldHashes)).Some? && c.commit in git(RequestFor(m', oldHashes)).value.commits;
          assert m' in materials;
        } else {
          var commits := git(RequestFor(m, oldHashes)).value.commits;
          var k :| 0 <= k < |commits| && Tagged(commits, m.pipelineMaterialId)[k] == c;
          assert c.commit in commits;
        }
      }
    }
  }

  /** When no material moved, nothing is fetched: no lines and no commits. */
  lemma {:induction false} NothingChangedNothingFetched(materials: seq<PipelineMaterial>, oldHashes: map<int, string>, git: ChangesOracle)
    requires forall i :: 0 <= i < |materials| ==> !Changed(materials[i], oldHashes)
    ensures FetchAll(materials, oldHashes, git) == Some(Fetched([], []))
  {
    if materials != [] {
      NothingChangedNothingFetched(materials[..|materials| - 1], oldHashes, git);
    }
  }

  /** The scan's variables hold the pick `p`: its time, its commit and the id of its material (0 while nothing is picked). */
  predicate Holds(p: Pick, oldestTime: int, oldest: Option<Commit>, oldestId: int)
  {
    && oldestTime == p.time
    && (p.oldest.None? ==> oldest.None? && oldestId == 0)
    && (p.oldest.Some? ==> oldest == Some(p.oldest.value.commit) && oldestId == p.oldest.value.materialId)
  }

  /**
    The scan loop over the new release's materials: diff each changed one, sum
    the added and deleted lines, and track the strictly oldest commit together
    with the id of the material that produced it. A failed diff stops the scan.
  */
  method ScanChanges(materials: seq<PipelineMaterial>, oldHashes: map<int, string>, git: ChangesOracle, now: int)
    returns (err: Option<Error>, lineAdded: int, lineRemoved: int, oldestTime: int, oldest: Option<Commit>, oldestId: int)
    ensures err.Some? <==> FetchAll(materials, oldHashes, git).None?
    ensures err.Some? ==> err == Some(FetchFailure)
    ensures err.None? ==>
      var f := FetchAll(materials, oldHashes, git).value;
      && lineAdded == SumOf(f.stats, Addition)
      && lineRemoved == SumOf(f.stats, Deletion)
      && Holds(Oldest(f.candidates, now), oldestTime, oldest, oldestId)
  {
    lineAdded, lineRemoved := 0, 0;
    oldestTime := now;
    oldest, oldestId := None, 0;
    ghost var f := Fetched([], []);
    for i := 0 to |materials|
      invariant FetchAll(materials[..i], oldHashes, git) == Some(f)
      invariant lineAdded == SumOf(f.stats, Addition) && lineRemoved == SumOf(f.stats, Deletion)
      invariant Holds(Oldest(f.candidates, now), oldestTime, oldest, oldestId)
    {
      var m := materials[i];
      assert materials[..i + 1][..i] == materials[..i];
      if m.pipelineMaterialId in oldHashes && oldHashes[m.pipelineMaterialId] != m.commitHash {
        var request := ReleaseChangesRequest(m.pipelineMaterialId, oldHashes[m.pipelineMaterialId], m.commitHash);
        var changes := git(request);
        if changes.None? {
          FetchFailsIff(materials, oldHashes, git);
          return Some(FetchFailure), lineAdded, lineRemoved, oldestTime, oldest, oldestId;
        }
        lineAdded, lineRemoved := AddFileStats(f.stats, changes.value.fileStats, lineAdded, lineRemoved);
        oldestTime, oldest, oldestId :=
          ScanCommits(f.candidates, changes.value.commits, m.pipelineMaterialId, now, oldestTime, oldest, oldestId);
        f := Fetched(f.stats + changes.value.fileStats, f.candidates + Tagged(changes.value.commits, m.pipelineMaterialId));
      }
    }
    assert materials[..|materials|] == materials;
    err := None;
  }

  /** The inner loop over one diff's file stats. */
  method AddFileStats(ghost before: seq<FileStat>, stats: seq<FileStat>, added: int, removed: int)
    returns (lineAdded: int, lineRemoved: int)
    requires added == SumOf(before, Addition) && removed == SumOf(before, Deletion)
    ensures lineAdded == SumOf(before + stats, Addition) && lineRemoved == SumOf(before + stats, Deletion)
  {
    lineAdded, lineRemoved := added, removed;
    assert before + stats[..0] == before;
    for j := 0 to |stats|
      invariant lineAdded == SumOf(before + stats[..j], Addition)
      invariant lineRemoved == SumOf(before + stats[..j], Deletion)
    {
      assert (before + stats[..j + 1])[..|before| + j] == before + stats[..j];
      lineRemoved := lineRemoved + stats[j].deletion;
      lineAdded := lineAdded + stats[j].addition;
    }
    assert stats[..|stats|] == stats;
  }

  /** One iteration of the inner loop: the pick over one more tagged commit. */
  lemma ScanStep(before: seq<Candidate>, commits: seq<Commit>, materialId: int, k: int, now: int)
    requires 0 <= k < |commits|
    ensures var p := Oldest(before + Tagged(commits[..k], materialId), now);
      Oldest(before + Tagged(commits[..k + 1], materialId), now) ==
        if p.time > commits[k].authorDate then Pick(commits[k].authorDate, Some(Candidate(commits[k], materialId))) else p
  {
    var seen := before + Tagged(commits[..k], materialId);
    assert before + Tagged(commits[..k + 1], materialId) == seen + [Candidate(commits[k], materialId)];
    OldestAppend(seen, Candidate(commits[k], materialId), now);
  }

  /** The inner loop over one diff's commits: a commit replaces the pick only when strictly older. */
  method ScanCommits(ghost before: seq<Candidate>, commits: seq<Commit>, materialId: int, now: int,
                     time0: int, oldest0: Option<Commit>, id0: int)
    returns (oldestTime: int, oldest: Option<Commit>, oldestId: int)
    requires Holds(Oldest(before, now), time0, oldest0, id0)
    ensures Holds(Oldest(before + Tagged(commits, materialId), now), oldestTime, oldest, oldestId)
  {
    oldestTime, oldest, oldestId := time0, oldest0, id0;
    assert before + Tagged(commits[..0], materialId) == before;
    for k := 0 to |commits|
      invariant Holds(Oldest(before + Tagged(commits[..k], materialId), now), oldestTime, oldest, oldestId)
    {
      var d := commits[k];
      ScanStep(before, commits, materialId, k, now);
      if oldestTime > d.authorDate {
        oldestTime := d.authorDate;
        oldest := Some(d);
        oldestId := materialId;
      }
    }
    assert commits[..|commits|] == commits;
  }
}
