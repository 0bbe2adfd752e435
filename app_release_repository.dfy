/**
  The release table: its row type, the three enumerations stored in it, and the
  queries the services run against it. The queries are pure selections over the
  table's rows, in the table's insertion order; the store class applies the
  updates (see store.dfy).
*/
module AppReleases {
  import opened Wrappers
  import opened Collections

  // ---------------------------------------------------------------- enumerations

  const StatusLabels: seq<string> := ["Success", "Failure"]
  const TypeLabels: seq<string> := ["Unknown", "RollForward", "RollBack", "Patch"]
  const StageLabels: seq<string> := ["Init", "ReleaseTypeDetermined", "LeadTimeFetch"]

  /** Whether a deployment was followed by a healthy one; stored as its ordinal. */
  datatype ReleaseStatus = Success | Failure {
    function Ordinal(): nat {
      match this
      case Success => 0
      case Failure => 1
    }
    /** The label at the ordinal's position, as the source's String method looks it up. */
    function String(): string {
      StatusLabels[Ordinal()]
    }
  }

  datatype ReleaseType = Unknown | RollForward | RollBack | Patch {
    function Ordinal(): nat {
      match this
      case Unknown => 0
      case RollForward => 1
      case RollBack => 2
      case Patch => 3
    }
    function String(): string {
      TypeLabels[Ordinal()]
    }
  }

  /** How far ingestion has got with a release. */
  datatype ProcessStage = Init | ReleaseTypeDetermined | LeadTimeFetch {
    function Ordinal(): nat {
      match this
      case Init => 0
      case ReleaseTypeDetermined => 1
      case LeadTimeFetch => 2
    }
    function String(): string {
      StageLabels[Ordinal()]
    }
  }

  /** The status stored under an ordinal; the source indexes past the labels (and panics) otherwise. */
  function StatusOfOrdinal(n: int): (r: Option<ReleaseStatus>)
    ensures r.Some? <==> 0 <= n < |StatusLabels|
    ensures r.Some? ==> r.value.Ordinal() == n && r.value.String() == StatusLabels[n]
  {
    if n == 0 then Some(Success) else if n == 1 then Some(Failure) else None
  }

  function TypeOfOrdinal(n: int): (r: Option<ReleaseType>)
    ensures r.Some? <==> 0 <= n < |TypeLabels|
    ensures r.Some? ==> r.value.Ordinal() == n && r.value.String() == TypeLabels[n]
  {
    if n == 0 then Some(Unknown)
    else if n == 1 then Some(RollForward)
    else if n == 2 then Some(RollBack)
    else if n == 3 then Some(Patch)
    else None
  }

  function StageOfOrdinal(n: int): (r: Option<ProcessStage>)
    ensures r.Some? <==> 0 <= n < |StageLabels|
    ensures r.Some? ==> r.value.Ordinal() == n && r.value.String() == StageLabels[n]
  {
    if n == 0 then Some(Init)
    else if n == 1 then Some(ReleaseTypeDetermined)
    else if n == 2 then Some(LeadTimeFetch)
    else None
  }

  /** Ordinals and labels are both one-to-one, so a stored value reads back as itself. */
  lemma EnumsRoundTrip(s: ReleaseStatus, t: ReleaseType, p: ProcessStage)
    ensures StatusOfOrdinal(s.Ordinal()) == Some(s)
    ensures TypeOfOrdinal(t.Ordinal()) == Some(t)
    ensures StageOfOrdinal(p.Ordinal()) == Some(p)
    ensures forall s': ReleaseStatus :: s'.String() == s.String() ==> s' == s
    ensures forall t': ReleaseType :: t'.String() == t.String() ==> t' == t
    ensures forall p': ProcessStage :: p'.String() == p.String() ==> p' == p
  {
  }

  // ---------------------------------------------------------------- the row

  /** One row of app_release. Times are whole minutes. */
  datatype AppRelease = AppRelease(
    id: int,
    appId: int,
    environmentId: int,
    ciArtifactId: int,
    releaseId: int,
    pipelineOverrideId: int,
    changeSizeLineAdded: int,
    changeSizeLineDeleted: int,
    triggerTime: int,
    releaseType: ReleaseType,
    releaseStatus: ReleaseStatus,
    processStage: ProcessStage,
    createdTime: int,
    updatedTime: int)

  /** The primary key of the row at position `i`: the term the key-order predicates are stated over. */
  function IdAt(rows: seq<AppRelease>, i: int): int
    requires 0 <= i < |rows|
  {
    rows[i].id
  }

  /** The serial primary key grows with insertion order. */
  ghost predicate IdsIncreasing(rows: seq<AppRelease>) {
    forall i, j :: 0 <= i < j < |rows| ==> IdAt(rows, i) < IdAt(rows, j)
  }

  ghost predicate IdsDecreasing(rows: seq<AppRelease>) {
    forall i, j :: 0 <= i < j < |rows| ==> IdAt(rows, i) > IdAt(rows, j)
  }

  /** Every id is below `bound`, the next value of the id serial. */
  ghost predicate IdsBelow(rows: seq<AppRelease>, bound: int) {
    forall i :: 0 <= i < |rows| ==> IdAt(rows, i) < bound
  }

  lemma IdsBelowAll(rows: seq<AppRelease>, bound: int)
    requires IdsBelow(rows, bound)
    ensures forall i :: 0 <= i < |rows| ==> rows[i].id < bound
  {
    forall i | 0 <= i < |rows|
      ensures rows[i].id < bound
    {
      assert IdAt(rows, i) < bound;
    }
  }

  /** A table whose rows all come from a table below the bound is below it too. */
  lemma IdsBelowSubset(rows: seq<AppRelease>, sub: seq<AppRelease>, bound: int)
    requires IdsBelow(rows, bound)
    requires forall x :: x in sub ==> x in rows
    ensures IdsBelow(sub, bound)
  {
    IdsBelowAll(rows, bound);
    forall i | 0 <= i < |sub|
      ensures IdAt(sub, i) < bound
    {
      assert sub[i] in rows;
    }
  }

  /** Under the key order, positions compare as their ids do; in particular ids are unique. */
  lemma IdsOrdered(rows: seq<AppRelease>, i: int, j: int)
    requires IdsIncreasing(rows) && 0 <= i < |rows| && 0 <= j < |rows|
    ensures i < j <==> rows[i].id < rows[j].id
    ensures i == j <==> rows[i].id == rows[j].id
  {
    if i < j {
      assert IdAt(rows, i) < IdAt(rows, j);
    } else if j < i {
      assert IdAt(rows, j) < IdAt(rows, i);
    }
  }

  /** Inserting a row whose id exceeds every existing one keeps the key order. */
  lemma AppendKeepsIds(rows: seq<AppRelease>, x: AppRelease)
    requires IdsIncreasing(rows)
    requires forall i :: 0 <= i < |rows| ==> rows[i].id < x.id
    ensures IdsIncreasing(rows + [x])
  {
    var s := rows + [x];
    forall i, j | 0 <= i < j < |s|
      ensures IdAt(s, i) < IdAt(s, j)
    {
      if j < |rows| {
        IdsOrdered(rows, i, j);
      }
    }
  }

  predicate InPair(r: AppRelease, appId: int, environmentId: int) {
    r.appId == appId && r.environmentId == environmentId
  }

  predicate SameArtifact(r: AppRelease, appId: int, environmentId: int, ciArtifactId: int) {
    InPair(r, appId, environmentId) && r.ciArtifactId == ciArtifactId
  }

  // ---------------------------------------------------------------- queries

  /** The matching row with the largest id: go-pg's Last() orders by primary key, descending. */
  function Latest(rows: seq<AppRelease>, p: AppRelease -> bool): (r: Option<AppRelease>)
    ensures r.None? <==> forall i :: 0 <= i < |rows| ==> !p(rows[i])
    ensures r.Some? ==> r.value in rows && p(r.value)
    ensures r.Some? ==> forall i :: 0 <= i < |rows| && p(rows[i]) ==> rows[i].id <= r.value.id
  {
    if rows == [] then None
    else
      var last := rows[|rows| - 1];
      var rest := Latest(rows[..|rows| - 1], p);
      if !p(last) then rest
      else if rest.Some? && rest.value.id > last.id then rest
      else Some(last)
  }

  /** A row appended after the others does not change a query it does not match. */
  lemma LatestIgnoresAppended(rows: seq<AppRelease>, x: AppRelease, p: AppRelease -> bool)
    requires !p(x)
    ensures Latest(rows + [x], p) == Latest(rows, p)
  {
    assert (rows + [x])[..|rows|] == rows;
  }

  /** Rows with the same (application, environment, artifact) as the arguments. */
  function ArtifactCount(rows: seq<AppRelease>, appId: int, environmentId: int, ciArtifactId: int): nat
  {
    CountOf(rows, r => SameArtifact(r, appId, environmentId, ciArtifactId))
  }

  /** The artifact counts as already deployed when more than one row carries it (the current one included). */
  predicate CheckDuplicateRelease(rows: seq<AppRelease>, appId: int, environmentId: int, ciArtifactId: int)
    ensures CheckDuplicateRelease(rows, appId, environmentId, ciArtifactId) <==>
      exists i, j :: 0 <= i < j < |rows| &&
        SameArtifact(rows[i], appId, environmentId, ciArtifactId) &&
        SameArtifact(rows[j], appId, environmentId, ciArtifactId)
  {
    CountAboveOne(rows, r => SameArtifact(r, appId, environmentId, ciArtifactId));
    ArtifactCount(rows, appId, environmentId, ciArtifactId) > 1
  }

  /** Right after a row is inserted, the duplicate check asks whether an earlier row had its artifact. */
  lemma {:induction false} DuplicateAfterInsert(rows: seq<AppRelease>, x: AppRelease)
    ensures CheckDuplicateRelease(rows + [x], x.appId, x.environmentId, x.ciArtifactId) <==>
      exists i :: 0 <= i < |rows| && SameArtifact(rows[i], x.appId, x.environmentId, x.ciArtifactId)
  {
    var all := rows + [x];
    if CheckDuplicateRelease(all, x.appId, x.environmentId, x.ciArtifactId) {
      var i, j :| 0 <= i < j < |all| &&
        SameArtifact(all[i], x.appId, x.environmentId, x.ciArtifactId) &&
        SameArtifact(all[j], x.appId, x.environmentId, x.ciArtifactId);
      assert all[i] == rows[i];
    }
    if exists i :: 0 <= i < |rows| && SameArtifact(rows[i], x.appId, x.environmentId, x.ciArtifactId) {
      var i :| 0 <= i < |rows| && SameArtifact(rows[i], x.appId, x.environmentId, x.ciArtifactId);
      assert all[i] == rows[i] && all[|rows|] == x;
    }
  }

  predicate IsPredecessor(r: AppRelease, appId: int, environmentId: int, currentId: int) {
    InPair(r, appId, environmentId) && r.id < currentId
  }

  predicate IsRecentPredecessor(r: AppRelease, appId: int, environmentId: int, within: int, currentId: int) {
    IsPredecessor(r, appId, environmentId, currentId) && r.triggerTime > within
  }

  /** The same-pair row with the largest id below `currentId`; None stands for "no rows". */
  function GetPreviousRelease(rows: seq<AppRelease>, appId: int, environmentId: int, currentId: int): (r: Option<AppRelease>)
    ensures r.None? <==> forall i :: 0 <= i < |rows| ==> !IsPredecessor(rows[i], appId, environmentId, currentId)
    ensures r.Some? ==> r.value in rows && IsPredecessor(r.value, appId, environmentId, currentId)
    ensures r.Some? ==> forall i :: 0 <= i < |rows| && IsPredecessor(rows[i], appId, environmentId, currentId) ==>
      rows[i].id <= r.value.id
  {
    Latest(rows, r => IsPredecessor(r, appId, environmentId, currentId))
  }

  /** As GetPreviousRelease, restricted to rows triggered strictly after `within`. */
  function GetPreviousReleaseWithinTime(rows: seq<AppRelease>, appId: int, environmentId: int, within: int, currentId: int)
    : (r: Option<AppRelease>)
    ensures r.None? <==> forall i :: 0 <= i < |rows| ==> !IsRecentPredecessor(rows[i], appId, environmentId, within, currentId)
    ensures r.Some? ==> r.value in rows && IsRecentPredecessor(r.value, appId, environmentId, within, currentId)
    ensures r.Some? ==> forall i :: 0 <= i < |rows| && IsRecentPredecessor(rows[i], appId, environmentId, within, currentId) ==>
      rows[i].id <= r.value.id
  {
    Latest(rows, r => IsRecentPredecessor(r, appId, environmentId, within, currentId))
  }

  /** The row appended last (the release being ingested) is never its own predecessor. */
  lemma PreviousIgnoresCurrent(rows: seq<AppRelease>, x: AppRelease, within: int)
    ensures GetPreviousRelease(rows + [x], x.appId, x.environmentId, x.id) ==
      GetPreviousRelease(rows, x.appId, x.environmentId, x.id)
    ensures GetPreviousReleaseWithinTime(rows + [x], x.appId, x.environmentId, within, x.id) ==
      GetPreviousReleaseWithinTime(rows, x.appId, x.environmentId, within, x.id)
  {
    LatestIgnoresAppended(rows, x, r => IsPredecessor(r, x.appId, x.environmentId, x.id));
    LatestIgnoresAppended(rows, x, r => IsRecentPredecessor(r, x.appId, x.environmentId, within, x.id));
  }

  /**
    With unique ids, a predecessor inside the look-back window is the immediate
    predecessor: no other release of the pair lies between the two.
  */
  lemma {:induction false} RecentPredecessorIsPrevious(rows: seq<AppRelease>, appId: int, environmentId: int, within: int, currentId: int)
    requires IdsIncreasing(rows)
    requires GetPreviousReleaseWithinTime(rows, appId, environmentId, within, currentId).Some?
    ensures GetPreviousRelease(rows, appId, environmentId, currentId).Some?
    ensures GetPreviousReleaseWithinTime(rows, appId, environmentId, within, currentId).value.id <=
      GetPreviousRelease(rows, appId, environmentId, currentId).value.id
    ensures GetPreviousRelease(rows, appId, environmentId, currentId).value.triggerTime > within ==>
      GetPreviousReleaseWithinTime(rows, appId, environmentId, within, currentId) ==
      GetPreviousRelease(rows, appId, environmentId, currentId)
  {
    var w := GetPreviousReleaseWithinTime(rows, appId, environmentId, within, currentId).value;
    var k :| 0 <= k < |rows| && rows[k] == w;
    assert IsPredecessor(rows[k], appId, environmentId, currentId);
    var p := GetPreviousRelease(rows, appId, environmentId, currentId).value;
    var m :| 0 <= m < |rows| && rows[m] == p;
    if p.triggerTime > within {
      assert IsRecentPredecessor(rows[m], appId, environmentId, within, currentId);
      assert rows[k].id == rows[m].id;
      IdsOrdered(rows, k, m);
    }
  }

  predicate InWindow(r: AppRelease, appId: int, environmentId: int, from: int, to: int) {
    InPair(r, appId, environmentId) && from <= r.triggerTime <= to
  }

  /** Dropping the first row keeps the key order, and every later id exceeds the first. */
  lemma TailKeepsIds(rows: seq<AppRelease>)
    requires rows != [] && IdsIncreasing(rows)
    ensures IdsIncreasing(rows[1..])
    ensures forall x :: x in rows[1..] ==> x.id > rows[0].id
  {
    var tail := rows[1..];
    forall i, j | 0 <= i < j < |tail|
      ensures IdAt(tail, i) < IdAt(tail, j)
    {
      IdsOrdered(rows, i + 1, j + 1);
    }
    forall x | x in tail
      ensures x.id > rows[0].id
    {
      var i :| 0 <= i < |tail| && tail[i] == x;
      IdsOrdered(rows, 0, i + 1);
    }
  }

  /** A row with an id below every id of an ordered table can go in front of it. */
  lemma ConsKeepsIds(head: AppRelease, rows: seq<AppRelease>)
    requires IdsIncreasing(rows)
    requires forall x :: x in rows ==> x.id > head.id
    ensures IdsIncreasing([head] + rows)
  {
    var r := [head] + rows;
    forall i, j | 0 <= i < j < |r|
      ensures IdAt(r, i) < IdAt(r, j)
    {
      if i == 0 {
        assert r[j] == rows[j - 1] && rows[j - 1] in rows;
      } else {
        assert IdAt(rows, i - 1) < IdAt(rows, j - 1);
      }
    }
  }

  lemma {:induction false} FilterKeepsIdsIncreasing(rows: seq<AppRelease>, p: AppRelease -> bool)
    ensures IdsIncreasing(rows) ==> IdsIncreasing(Filter(rows, p))
  {
    if rows != [] && IdsIncreasing(rows) {
      TailKeepsIds(rows);
      FilterKeepsIdsIncreasing(rows[1..], p);
      var rest := Filter(rows[1..], p);
      if p(rows[0]) {
        ConsKeepsIds(rows[0], rest);
        assert Filter(rows, p) == [rows[0]] + rest;
      } else {
        assert Filter(rows, p) == rest;
      }
    }
  }

  /** The releases of the pair triggered in [from, to], newest (largest id) first. */
  function GetReleaseBetween(rows: seq<AppRelease>, appId: int, environmentId: int, from: int, to: int): (r: seq<AppRelease>)
    ensures forall x :: x in r <==> x in rows && InWindow(x, appId, environmentId, from, to)
    ensures forall x :: multiset(r)[x] == if InWindow(x, appId, environmentId, from, to) then multiset(rows)[x] else 0
    ensures IdsIncreasing(rows) ==> IdsDecreasing(r)
  {
    FilterKeepsIdsIncreasing(rows, x => InWindow(x, appId, environmentId, from, to));
    ReverseIdsDecreasing(Filter(rows, x => InWindow(x, appId, environmentId, from, to)));
    Reverse(Filter(rows, x => InWindow(x, appId, environmentId, from, to)))
  }

  lemma ReverseIdsDecreasing(rows: seq<AppRelease>)
    ensures IdsIncreasing(rows) ==> IdsDecreasing(Reverse(rows))
  {
    if IdsIncreasing(rows) {
      var r := Reverse(rows);
      forall i, j | 0 <= i < j < |r|
        ensures IdAt(r, i) > IdAt(r, j)
      {
        IdsOrdered(rows, |rows| - 1 - j, |rows| - 1 - i);
      }
    }
  }

  // ---------------------------------------------------------------- updates

  /** UPDATE ... WHERE id = row.id: the row with that primary key is replaced, no other row changes. */
  function ReplaceRow(rows: seq<AppRelease>, row: AppRelease): (r: seq<AppRelease>)
    ensures |r| == |rows|
    ensures forall i {:trigger r[i]} :: 0 <= i < |rows| ==> r[i] == if rows[i].id == row.id then row else rows[i]
  {
    if rows == [] then []
    else [if rows[0].id == row.id then row else rows[0]] + ReplaceRow(rows[1..], row)
  }

  /** Replacing keeps every id where it was, so the key order is kept. */
  lemma ReplaceRowKeepsIds(rows: seq<AppRelease>, row: AppRelease)
    requires IdsIncreasing(rows)
    ensures IdsIncreasing(ReplaceRow(rows, row))
  {
    var r := ReplaceRow(rows, row);
    forall i, j | 0 <= i < j < |r|
      ensures IdAt(r, i) < IdAt(r, j)
    {
      IdsOrdered(rows, i, j);
    }
  }

  /** Updating the row just appended leaves every earlier row alone. */
  lemma ReplaceAppended(rows: seq<AppRelease>, x: AppRelease, y: AppRelease)
    requires forall i :: 0 <= i < |rows| ==> rows[i].id < x.id
    requires y.id == x.id
    ensures ReplaceRow(rows + [x], y) == rows + [y]
  {
    var r := ReplaceRow(rows + [x], y);
    assert forall i :: 0 <= i < |rows| ==> r[i] == rows[i];
  }

  // ---------------------------------------------------------------- cleanup

  /** Ids of the pair's releases: the join the material and lead-time deletes use. */
  function PairIds(rows: seq<AppRelease>, appId: int, environmentId: int): (ids: set<int>)
    ensures forall x :: x in rows && InPair(x, appId, environmentId) ==> x.id in ids
    ensures forall id :: id in ids ==> exists x :: x in rows && InPair(x, appId, environmentId) && x.id == id
  {
    set r | r in rows && InPair(r, appId, environmentId) :: r.id
  }

  /** DELETE FROM app_release WHERE app_id = ? AND environment_id = ? */
  function DeletePair(rows: seq<AppRelease>, appId: int, environmentId: int): (r: seq<AppRelease>)
    ensures forall x :: x in r <==> x in rows && !InPair(x, appId, environmentId)
    ensures forall x :: multiset(r)[x] == if InPair(x, appId, environmentId) then 0 else multiset(rows)[x]
  {
    Filter(rows, x => !InPair(x, appId, environmentId))
  }

  /**
    The result the release-delete step reports, as written: the branches are
    swapped, so a failed delete is reported as nil, and so is a successful one.
    The failure branch also reads the row count of the failed delete's result,
    which is probably nil; that panic is not modelled.
  */
  function ReleaseDeleteResultAsWritten(deleteError: Option<Error>): (r: Option<Error>)
    ensures r == None
  {
    if deleteError.Some? then None else deleteError
  }

  /** The evidently intended step: the delete's own error is passed on, so the transaction rolls back. */
  function ReleaseDeleteResult(deleteError: Option<Error>): (r: Option<Error>)
    ensures r.Some? <==> deleteError.Some?
  {
    if deleteError.Some? then deleteError else None
  }

  /** A failed release delete goes unreported as written, and is reported once corrected. */
  lemma ReleaseDeleteErrorSwallowed(e: Error)
    ensures ReleaseDeleteResultAsWritten(Some(e)) == None
    ensures ReleaseDeleteResult(Some(e)) == Some(e)
  {
  }
}
