/**
  The deployment-metrics report as pure functions of a series of points,
  newest release first: the point built for each release, the cycle, lead and
  recovery times, the change-failure rate and the change-size averages. The
  service methods (deployment_metric_service.dfy) compute these with loops
  and are proved equal to them; the lemmas here say what the numbers mean.
  Times and durations are whole minutes; averages are exact reals.
*/
module MetricSeries {
  import opened Wrappers
  import opened Collections
  import opened AppReleases
  import PipelineMaterials
  import LeadTimes

  /** One release as the report shows it. */
  datatype Metric = Metric(
    releaseType: ReleaseType,
    releaseStatus: ReleaseStatus,
    releaseTime: int,
    changeSizeLineAdded: int,
    changeSizeLineDeleted: int,
    deploymentSize: int,
    commitHash: string,
    leadTime: int,
    cycleTime: int,
    recoveryTime: int)

  function AddedOf(m: Metric): int { m.changeSizeLineAdded }
  function DeletedOf(m: Metric): int { m.changeSizeLineDeleted }
  function SizeOf(m: Metric): int { m.deploymentSize }
  function LeadOf(m: Metric): int { m.leadTime }
  function CycleOf(m: Metric): int { m.cycleTime }
  predicate HasLeadTime(m: Metric) { m.leadTime != 0 }
  predicate Failed(m: Metric) { m.releaseStatus == Failure }
  predicate Succeeded(m: Metric) { m.releaseStatus == Success }

  /** The mean of `count` values summing to `total`; 0 when there are none. */
  function Mean(total: int, count: int): real
  {
    if count > 0 then total as real / count as real else 0.0
  }

  // ---------------------------------------------------------------- transform

  /** Release id -> commit hash of the last material row saved for that release. */
  function CommitHashes(materials: seq<PipelineMaterials.PipelineMaterial>): map<int, string>
  {
    IndexByLast(materials, PipelineMaterials.AppReleaseIdOf, PipelineMaterials.CommitHashOf)
  }

  /** Release id -> lead time of the last lead-time row saved for that release. */
  function LeadMinutes(leadTimes: seq<LeadTimes.LeadTime>): map<int, int>
  {
    IndexByLast(leadTimes, LeadTimes.AppReleaseIdOf, LeadTimes.LeadTimeOf)
  }

  /** The point for one release, before any cycle or recovery time is filled in. */
  function PointOf(v: AppRelease, hashes: map<int, string>, leads: map<int, int>): Metric
  {
    Metric(v.releaseType, v.releaseStatus, v.triggerTime, v.changeSizeLineAdded, v.changeSizeLineDeleted,
           v.changeSizeLineDeleted + v.changeSizeLineAdded,
           if v.id in hashes then hashes[v.id] else "",
           if v.id in leads then leads[v.id] else 0,
           0, 0)
  }

  /**
    One point per release, in the releases' order: the release's own type,
    status, trigger time and line counts; the commit hash and the lead time of
    the last material row and lead-time row that belong to it, or "" and 0.
  */
  function Points(releases: seq<AppRelease>, materials: seq<PipelineMaterials.PipelineMaterial>,
                  leadTimes: seq<LeadTimes.LeadTime>): (s: seq<Metric>)
    ensures |s| == |releases|
  {
    seq(|releases|, i requires 0 <= i < |releases| =>
      PointOf(releases[i], CommitHashes(materials), LeadMinutes(leadTimes)))
  }

  /**
    Each point carries its release's type, status, trigger time and line
    counts, a deployment size of added plus deleted lines, no cycle or
    recovery time yet, and the commit hash and lead time of the last material
    and lead-time rows that belong to its release ("" and 0 when none do).
  */
  lemma PointsCarryReleases(releases: seq<AppRelease>, materials: seq<PipelineMaterials.PipelineMaterial>,
                            leadTimes: seq<LeadTimes.LeadTime>)
    ensures var s := Points(releases, materials, leadTimes);
      forall i :: 0 <= i < |s| ==>
        && s[i].releaseType == releases[i].releaseType
        && s[i].releaseStatus == releases[i].releaseStatus
        && s[i].releaseTime == releases[i].triggerTime
        && s[i].changeSizeLineAdded == releases[i].changeSizeLineAdded
        && s[i].changeSizeLineDeleted == releases[i].changeSizeLineDeleted
        && s[i].deploymentSize == s[i].changeSizeLineAdded + s[i].changeSizeLineDeleted
        && s[i].cycleTime == 0 && s[i].recoveryTime == 0
    ensures var s := Points(releases, materials, leadTimes);
      forall i :: 0 <= i < |s| ==>
        s[i].commitHash ==
          match LastWith(materials, PipelineMaterials.AppReleaseIdOf, releases[i].id)
          case Some(m) => m.commitHash
          case None => ""
    ensures var s := Points(releases, materials, leadTimes);
      forall i :: 0 <= i < |s| ==>
        s[i].leadTime ==
          match LastWith(leadTimes, LeadTimes.AppReleaseIdOf, releases[i].id)
          case Some(l) => l.leadTime
          case None => 0
  {
  }

  // ---------------------------------------------------------------- cycle time

  /**
    The cycle time of position `i`: minutes since the next older release, or,
    for the oldest, since `last` (the trigger time of the release before the
    window); 0 for the oldest when there is no such release.
  */
  function CycleTimeAt(s: seq<Metric>, i: int, last: Option<int>): int
    requires 0 <= i < |s|
  {
    if i < |s| - 1 then s[i].releaseTime - s[i + 1].releaseTime
    else if last.Some? then s[i].releaseTime - last.value
    else 0
  }

  function WithCycleTimes(s: seq<Metric>, last: Option<int>): (r: seq<Metric>)
    ensures |r| == |s|
    ensures forall i :: 0 <= i < |s| ==> r[i] == s[i].(cycleTime := CycleTimeAt(s, i, last))
  {
    seq(|s|, i requires 0 <= i < |s| => s[i].(cycleTime := CycleTimeAt(s, i, last)))
  }

  /** The oldest release counts only when the release before the window is known. */
  function CycleTimeCount(s: seq<Metric>, last: Option<int>): nat
  {
    if last.None? && |s| > 0 then |s| - 1 else |s|
  }

  function CycleTimeTotal(s: seq<Metric>, last: Option<int>): int
  {
    SumOf(WithCycleTimes(s, last), CycleOf)
  }

  function AverageCycleTime(s: seq<Metric>, last: Option<int>): real
  {
    Mean(CycleTimeTotal(s, last), CycleTimeCount(s, last))
  }

  lemma {:induction false} CycleTimePrefix(s: seq<Metric>, last: Option<int>, k: int)
    requires 0 <= k < |s|
    ensures SumOf(WithCycleTimes(s, last)[..k], CycleOf) == s[0].releaseTime - s[k].releaseTime
  {
    var w := WithCycleTimes(s, last);
    if k > 0 {
      assert w[..k][..k - 1] == w[..k - 1];
      CycleTimePrefix(s, last, k - 1);
    }
  }

  /**
    The cycle times telescope: together they span from the newest release back
    to the release before the window, or back to the oldest one in it.
  */
  lemma CycleTimesTelescope(s: seq<Metric>, last: Option<int>)
    requires |s| > 0
    ensures CycleTimeTotal(s, last) ==
      s[0].releaseTime - (if last.Some? then last.value else s[|s| - 1].releaseTime)
  {
    var w := WithCycleTimes(s, last);
    CycleTimePrefix(s, last, |s| - 1);
    assert w[..|w|] == w;
  }

  /** Hence the average cycle time is the span divided by the number of intervals it covers. */
  lemma AverageCycleTimeIsSpan(s: seq<Metric>, last: Option<int>)
    requires |s| > 0
    ensures last.Some? ==> AverageCycleTime(s, last) == (s[0].releaseTime - last.value) as real / |s| as real
    ensures last.None? && |s| > 1 ==>
      AverageCycleTime(s, last) == (s[0].releaseTime - s[|s| - 1].releaseTime) as real / (|s| - 1) as real
    ensures last.None? && |s| == 1 ==> AverageCycleTime(s, last) == 0.0
  {
    CycleTimesTelescope(s, last);
  }

  // ---------------------------------------------------------------- lead time

  /** Points without a lead time are left out of both the sum and the count. */
  function AverageLeadTime(s: seq<Metric>): real
  {
    Mean(SumOf(s, LeadOf), CountOf(s, HasLeadTime))
  }

  /** A point without a lead time, wherever it sits, does not move the average. */
  lemma ZeroLeadTimeIgnored(a: seq<Metric>, m: Metric, b: seq<Metric>)
    requires m.leadTime == 0
    ensures AverageLeadTime(a + [m] + b) == AverageLeadTime(a + b)
  {
    SumOfAppend(a + [m], b, LeadOf);
    SumOfAppend(a, [m], LeadOf);
    SumOfAppend(a, b, LeadOf);
    CountOfAppend(a + [m], b, HasLeadTime);
    CountOfAppend(a, [m], HasLeadTime);
    CountOfAppend(a, b, HasLeadTime);
    assert [m][..0] == [];
  }

  // ---------------------------------------------------------------- change-failure rate

  function FailedCount(s: seq<Metric>): nat { CountOf(s, Failed) }
  function SucceededCount(s: seq<Metric>): nat { CountOf(s, Succeeded) }

  /** Failures as a percentage of all releases; 0 for an empty window. */
  function ChangeFailureRate(s: seq<Metric>): real
  {
    var n := FailedCount(s) + SucceededCount(s);
    if n > 0 then (FailedCount(s) * 100) as real / n as real else 0.0
  }

  lemma PercentBounds(f: int, n: int)
    requires 0 <= f <= n && n > 0
    ensures 0.0 <= (f * 100) as real / n as real <= 100.0
    ensures (f * 100) as real / n as real == 0.0 <==> f == 0
    ensures (f * 100) as real / n as real == 100.0 <==> f == n
  {
    var x := (f * 100) as real / n as real;
    assert x * n as real == (f * 100) as real;
  }

  /**
    Every release is either a failure or a success, so the rate lies in
    [0, 100]; it is 0 exactly when nothing failed and 100 exactly when every
    release (of a non-empty window) failed.
  */
  lemma ChangeFailureRateBounds(s: seq<Metric>)
    ensures FailedCount(s) + SucceededCount(s) == |s|
    ensures 0.0 <= ChangeFailureRate(s) <= 100.0
    ensures ChangeFailureRate(s) == 0.0 <==> forall i :: 0 <= i < |s| ==> s[i].releaseStatus == Success
    ensures ChangeFailureRate(s) == 100.0 <==> |s| > 0 && forall i :: 0 <= i < |s| ==> s[i].releaseStatus == Failure
  {
    CountComplement(s, Failed, Succeeded);
    CountPositive(s, Failed);
    CountPositive(s, Succeeded);
    if |s| > 0 {
      PercentBounds(FailedCount(s), |s|);
    }
  }

  /** The trigger time of the newest failed release, or None when none failed. */
  function FirstFailureTime(s: seq<Metric>): Option<int>
  {
    if s == [] then None
    else
      var p := FirstFailureTime(s[..|s| - 1]);
      if p.Some? then p
      else if Failed(s[|s| - 1]) then Some(s[|s| - 1].releaseTime)
      else None
  }

  /**
    FirstFailureTime finds nothing exactly when no point failed; otherwise it
    is the time of a failed point with no failure before it (the newest one).
  */
  lemma {:induction false} FirstFailureTimeIsNewest(s: seq<Metric>)
    ensures FirstFailureTime(s).None? <==> forall i :: 0 <= i < |s| ==> s[i].releaseStatus != Failure
    ensures FirstFailureTime(s).Some? ==>
      exists i :: 0 <= i < |s| && s[i].releaseStatus == Failure && s[i].releaseTime == FirstFailureTime(s).value &&
                  (forall j :: 0 <= j < i ==> s[j].releaseStatus != Failure)
    decreases |s|
  {
    if s != [] {
      var p := s[..|s| - 1];
      FirstFailureTimeIsNewest(p);
      if FirstFailureTime(p).Some? {
        var i :| 0 <= i < |p| && p[i].releaseStatus == Failure && p[i].releaseTime == FirstFailureTime(p).value &&
                 (forall j :: 0 <= j < i ==> p[j].releaseStatus != Failure);
        assert s[i] == p[i];
      } else {
        assert forall i :: 0 <= i < |s| - 1 ==> s[i] == p[i];
      }
    }
  }

  /** One more step of the counting loop: the counts and the first failure over one more point. */
  lemma FailureStep(s: seq<Metric>, i: int)
    requires 0 <= i < |s|
    ensures FailedCount(s[..i + 1]) == FailedCount(s[..i]) + if Failed(s[i]) then 1 else 0
    ensures SucceededCount(s[..i + 1]) == SucceededCount(s[..i]) + if Succeeded(s[i]) then 1 else 0
    ensures FirstFailureTime(s[..i + 1]) ==
      if FirstFailureTime(s[..i]).Some? then FirstFailureTime(s[..i])
      else if Failed(s[i]) then Some(s[i].releaseTime) else None
  {
    CountOfStep(s, Failed, i);
    CountOfStep(s, Succeeded, i);
    assert s[..i + 1][..i] == s[..i];
  }

  // ---------------------------------------------------------------- recovery time

  /** The nearest position before `i` (a newer release) whose status is Success. */
  function NewerSuccess(s: seq<Metric>, i: int): (r: Option<nat>)
    requires 0 <= i <= |s|
    ensures r.None? <==> forall k :: 0 <= k < i ==> s[k].releaseStatus != Success
    ensures r.Some? ==> r.value < i && s[r.value].releaseStatus == Success
    ensures r.Some? ==> forall k :: r.value < k < i ==> s[k].releaseStatus != Success
  {
    if i == 0 then None
    else if s[i - 1].releaseStatus == Success then Some(i - 1)
    else NewerSuccess(s, i - 1)
  }

  /** Only the oldest failure of a run of consecutive failures is charged a recovery time. */
  predicate Charged(s: seq<Metric>, i: int)
    requires 0 <= i < |s|
  {
    s[i].releaseStatus == Failure && !(i < |s| - 1 && s[i + 1].releaseStatus == Failure)
  }

  /**
    The recovery time charged to position `i`: minutes from that failure to the
    nearest newer success; None when it is not charged or nothing newer succeeded.
  */
  function RecoveryAt(s: seq<Metric>, i: int): Option<int>
    requires 0 <= i < |s|
  {
    var j := NewerSuccess(s, i);
    if Charged(s, i) && j.Some? then Some(s[j.value].releaseTime - s[i].releaseTime) else None
  }

  /**
    A point is charged a recovery time exactly when it is the oldest failure
    of its run and some newer release succeeded; the time is measured to the
    nearest such success.
  */
  lemma RecoveryAtIsNearestSuccess(s: seq<Metric>, i: int)
    requires 0 <= i < |s|
    ensures RecoveryAt(s, i).Some? <==> Charged(s, i) && exists j :: 0 <= j < i && s[j].releaseStatus == Success
    ensures RecoveryAt(s, i).Some? ==>
      exists j :: 0 <= j < i && s[j].releaseStatus == Success &&
                  (forall k :: j < k < i ==> s[k].releaseStatus != Success) &&
                  RecoveryAt(s, i).value == s[j].releaseTime - s[i].releaseTime
  {
    var j := NewerSuccess(s, i);
    if j.Some? {
      assert s[j.value].releaseStatus == Success;
    }
  }

  function Recoveries(s: seq<Metric>): (rs: seq<Option<int>>)
    ensures |rs| == |s|
    ensures forall i :: 0 <= i < |s| ==> rs[i] == RecoveryAt(s, i)
  {
    seq(|s|, i requires 0 <= i < |s| => RecoveryAt(s, i))
  }

  /** The series with each charged recovery time written into its point. */
  function WithRecoveryTimes(s: seq<Metric>): (r: seq<Metric>)
    ensures |r| == |s|
    ensures forall i :: 0 <= i < |s| ==>
      r[i] == if RecoveryAt(s, i).Some? then s[i].(recoveryTime := RecoveryAt(s, i).value) else s[i]
  {
    seq(|s|, i requires 0 <= i < |s| =>
      if RecoveryAt(s, i).Some? then s[i].(recoveryTime := RecoveryAt(s, i).value) else s[i])
  }

  predicate Recovered(o: Option<int>) { o.Some? }
  function RecoveryMinutes(o: Option<int>): int { if o.Some? then o.value else 0 }
  /** A step of the recovery loop: the running count, total and kept value move on by one position. */
  lemma RecoveryStep(s: seq<Metric>, i: int, init: int)
    requires 0 <= i < |s|
    ensures var rs := Recoveries(s);
      && CountOf(rs[..i + 1], Recovered) == CountOf(rs[..i], Recovered) + (if RecoveryAt(s, i).Some? then 1 else 0)
      && SumOf(rs[..i + 1], RecoveryMinutes) == SumOf(rs[..i], RecoveryMinutes) + RecoveryMinutes(RecoveryAt(s, i))
      && KeepFirstRecovery(init, rs[..i + 1]) ==
           var acc := KeepFirstRecovery(init, rs[..i]);
           if RecoveryAt(s, i).Some? && acc == 0 then RecoveryAt(s, i).value else acc
  {
    var rs := Recoveries(s);
    CountOfStep(rs, Recovered, i);
    SumOfStep(rs, RecoveryMinutes, i);
    assert rs[..i + 1][..i] == rs[..i];
  }

  function RecoveredCount(s: seq<Metric>): nat { CountOf(Recoveries(s), Recovered) }
  function RecoveryTotal(s: seq<Metric>): int { SumOf(Recoveries(s), RecoveryMinutes) }

  /** The mean over the failures that were charged and recovered; 0 when none were. */
  function AverageRecoveryTime(s: seq<Metric>): real
  {
    if FailedCount(s) > 0 && RecoveredCount(s) > 0 then RecoveryTotal(s) as real / RecoveredCount(s) as real else 0.0
  }

  /**
    Every recovery belongs to a distinct failure, so there are never more
    recoveries than failures, and the failure-count guard of the average is
    implied by the recovery count.
  */
  lemma RecoveredAtMostFailed(s: seq<Metric>)
    ensures RecoveredCount(s) <= FailedCount(s)
    ensures AverageRecoveryTime(s) == Mean(RecoveryTotal(s), RecoveredCount(s))
  {
    CountMonotone(Recoveries(s), s, Recovered, Failed);
  }

  /**
    The value kept for "recovery time of the last failure", scanning `rs` in
    order from `init`: a recovery replaces it only while it is still 0.
  */
  function KeepFirstRecovery(init: int, rs: seq<Option<int>>): int
  {
    if rs == [] then init
    else
      var acc := KeepFirstRecovery(init, rs[..|rs| - 1]);
      var o := rs[|rs| - 1];
      if o.Some? && acc == 0 then o.value else acc
  }

  /** The first non-zero recovery time in `rs`, or 0. */
  function FirstNonZeroRecovery(rs: seq<Option<int>>): int
  {
    if rs == [] then 0
    else if rs[0].Some? && rs[0].value != 0 then rs[0].value
    else FirstNonZeroRecovery(rs[1..])
  }

  lemma {:induction false} FirstNonZeroAppend(rs: seq<Option<int>>, o: Option<int>)
    ensures FirstNonZeroRecovery(rs + [o]) ==
      if FirstNonZeroRecovery(rs) != 0 then FirstNonZeroRecovery(rs)
      else if o.Some? then o.value else 0
  {
    if rs != [] {
      assert (rs + [o])[1..] == rs[1..] + [o];
      FirstNonZeroAppend(rs[1..], o);
    }
  }

  /**
    Starting from 0, the kept value is the first recovery time that is not 0:
    a recovery of 0 minutes does not stop the scan.
  */
  lemma {:induction false} KeepFirstRecoveryIsFirstNonZero(init: int, rs: seq<Option<int>>)
    ensures KeepFirstRecovery(init, rs) == if init != 0 then init else FirstNonZeroRecovery(rs)
  {
    if rs != [] {
      var front := rs[..|rs| - 1];
      KeepFirstRecoveryIsFirstNonZero(init, front);
      FirstNonZeroAppend(front, rs[|rs| - 1]);
      assert front + [rs[|rs| - 1]] == rs;
    }
  }

  /**
    When trigger times do not increase along the series (and the release before
    the window is no later than the oldest in it), no cycle time and no
    recovery time is negative.
  */
  lemma TimesNonNegativeWhenOrdered(s: seq<Metric>, last: Option<int>)
    requires forall i, j :: 0 <= i < j < |s| ==> s[i].releaseTime >= s[j].releaseTime
    requires |s| > 0 && last.Some? ==> last.value <= s[|s| - 1].releaseTime
    ensures forall i :: 0 <= i < |s| ==> CycleTimeAt(s, i, last) >= 0
    ensures forall i :: 0 <= i < |s| && RecoveryAt(s, i).Some? ==> RecoveryAt(s, i).value >= 0
  {
    forall i | 0 <= i < |s| && RecoveryAt(s, i).Some?
      ensures RecoveryAt(s, i).value >= 0
    {
      var j := NewerSuccess(s, i).value;
      assert s[j].releaseTime >= s[i].releaseTime;
    }
  }

  // ---------------------------------------------------------------- change size

  function AverageOf(s: seq<Metric>, f: Metric -> int): real
    requires |s| > 0
  {
    SumOf(s, f) as real / |s| as real
  }

  /** For transformed points the average deployment size is the sum of the two line averages. */
  lemma AverageSizeIsAddedPlusDeleted(s: seq<Metric>)
    requires |s| > 0
    requires forall i :: 0 <= i < |s| ==> s[i].deploymentSize == s[i].changeSizeLineAdded + s[i].changeSizeLineDeleted
    ensures AverageOf(s, SizeOf) == AverageOf(s, AddedOf) + AverageOf(s, DeletedOf)
  {
    SumOfSplit(s, SizeOf, AddedOf, DeletedOf);
  }

  // ---------------------------------------------------------------- example

  /**
    A window of three releases, newest first: Success at minute 300, Failure
    at 200, Success at 100, with no release before it.
  */
  lemma ThreeReleaseExample(a: Metric, b: Metric, c: Metric)
    requires a.releaseStatus == Success && a.releaseTime == 300
    requires b.releaseStatus == Failure && b.releaseTime == 200
    requires c.releaseStatus == Success && c.releaseTime == 100
    ensures ChangeFailureRate([a, b, c]) == 100.0 / 3.0
    ensures Recoveries([a, b, c]) == [None, Some(100), None]
    ensures AverageRecoveryTime([a, b, c]) == 100.0
    ensures FirstFailureTime([a, b, c]) == Some(200)
    ensures KeepFirstRecovery(0, Recoveries([a, b, c])) == 100
    ensures AverageCycleTime([a, b, c], None) == 100.0
  {
    var s := [a, b, c];
    assert s[..2] == [a, b] && s[..2][..1] == [a] && [a][..0] == [];
    assert Succeeded(a) && Failed(b) && Succeeded(c) && [a][0] == a;
    assert CountOf([a], Succeeded) == CountOf([a][..0], Succeeded) + 1;
    assert CountOf([a], Failed) == 0 && CountOf([a], Succeeded) == 1;
    assert CountOf([a, b], Failed) == 1 && CountOf([a, b], Succeeded) == 1;
    assert FailedCount(s) == 1 && SucceededCount(s) == 2;
    assert FirstFailureTime([a]) == None && FirstFailureTime([a, b]) == Some(200);
    assert NewerSuccess(s, 1) == Some(0);
    var rs := Recoveries(s);
    assert rs == [None, Some(100), None];
    assert rs[..2] == [None, Some(100)] && rs[..2][..1] == [None] && rs[..2][..1][..0] == [];
    assert CountOf(rs[..1], Recovered) == 0 && SumOf(rs[..1], RecoveryMinutes) == 0;
    assert CountOf(rs[..2], Recovered) == 1 && SumOf(rs[..2], RecoveryMinutes) == 100;
    assert RecoveredCount(s) == 1 && RecoveryTotal(s) == 100;
    assert KeepFirstRecovery(0, rs[..1]) == 0;
    assert KeepFirstRecovery(0, rs[..2]) == 100;
    CycleTimesTelescope(s, None);
  }
}
