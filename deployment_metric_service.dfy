/**
  The deployment-metrics query: load the releases of one (application,
  environment) in a time window, newest first, with their materials and lead
  times and the release before the window, and compute the report. The report
  object is filled in place: the series points get their cycle and recovery
  times written into them, and the aggregates are set field by field. Every
  loop is proved to compute the corresponding function of metric_series.dfy.
*/
module DeploymentMetrics {
  import opened Wrappers
  import opened Collections
  import opened AppReleases
  import opened PipelineMaterials
  import opened LeadTimes
  import opened Store
  import opened MetricSeries

  /** The only timestamp layout a window bound may use. */
  const Layout: string := "2006-01-02T15:04:05.000Z"

  /** Parsing a timestamp in a layout: the minute it denotes, or None when the text does not follow the layout. */
  type TimeParser = (string, string) -> Option<int>

  datatype MetricRequest = MetricRequest(appId: int, envId: int, from: string, to: string)

  /** The database reads of the query; a read in the fault set fails. */
  datatype Query = SelectReleases | SelectMaterials | SelectLeadTimes | SelectPrevious

  /** The ids of `rows`, in order. */
  function IdsOf(rows: seq<AppRelease>): (ids: seq<int>)
    ensures |ids| == |rows|
    ensures forall i :: 0 <= i < |rows| ==> ids[i] == rows[i].id
  {
    if rows == [] then [] else IdsOf(rows[..|rows| - 1]) + [rows[|rows| - 1].id]
  }

  /** The trigger time of the release before the window, if there is one. */
  function LastTime(lastRelease: Option<AppRelease>): Option<int>
  {
    if lastRelease.Some? then Some(lastRelease.value.triggerTime) else None
  }

  class Metrics {
    var series: seq<Metric>
    var averageCycleTime: real
    var averageLeadTime: real
    var changeFailureRate: real
    var averageRecoveryTime: real
    var averageDeploymentSize: real
    var averageLineAdded: real
    var averageLineDeleted: real
    var lastFailedTime: Option<int>
    var recoveryTimeLastFailed: int

    /** A report over `series` with the given average cycle time and every other aggregate zero or unset. */
    constructor (series: seq<Metric>, averageCycleTime: real, averageLeadTime: real)
      ensures this.series == series && this.averageCycleTime == averageCycleTime
      ensures this.averageLeadTime == averageLeadTime && changeFailureRate == 0.0 && averageRecoveryTime == 0.0
      ensures averageDeploymentSize == 0.0 && averageLineAdded == 0.0 && averageLineDeleted == 0.0
      ensures lastFailedTime == None && recoveryTimeLastFailed == 0
    {
      this.series := series;
      this.averageCycleTime := averageCycleTime;
      this.averageLeadTime := averageLeadTime;
      changeFailureRate, averageRecoveryTime := 0.0, 0.0;
      averageDeploymentSize, averageLineAdded, averageLineDeleted := 0.0, 0.0, 0.0;
      lastFailedTime, recoveryTimeLastFailed := None, 0;
    }

    /** The report for an empty window: no points, every aggregate zero. */
    ghost predicate IsEmpty()
      reads this
    {
      && series == []
      && averageCycleTime == 0.0 && averageLeadTime == 0.0 && changeFailureRate == 0.0
      && averageRecoveryTime == 0.0 && averageDeploymentSize == 0.0
      && averageLineAdded == 0.0 && averageLineDeleted == 0.0
      && lastFailedTime == None && recoveryTimeLastFailed == 0
    }

    /**
      The report for `releases` (newest first), their materials and lead
      times, and the release before the window: each point carries its cycle
      and recovery time, and each aggregate is the function that defines it.
    */
    ghost predicate Reports(s: seq<Metric>, last: Option<int>)
      reads this
    {
      var c := WithCycleTimes(s, last);
      && series == WithRecoveryTimes(c)
      && averageCycleTime == AverageCycleTime(s, last)
      && averageLeadTime == AverageLeadTime(s)
      && changeFailureRate == ChangeFailureRate(c)
      && averageRecoveryTime == AverageRecoveryTime(c)
      && lastFailedTime == FirstFailureTime(c)
      && recoveryTimeLastFailed == KeepFirstRecovery(0, Recoveries(c))
      && (|s| > 0 ==>
            && averageDeploymentSize == AverageOf(series, SizeOf)
            && averageLineAdded == AverageOf(series, AddedOf)
            && averageLineDeleted == AverageOf(series, DeletedOf))
      && (|s| == 0 ==> averageDeploymentSize == 0.0 && averageLineAdded == 0.0 && averageLineDeleted == 0.0)
    }
  }

  class DeploymentMetricService {
    const db: Store

    constructor (db: Store)
      ensures this.db == db
    {
      this.db := db;
    }

    /**
      The report for the request's window. A bound that does not parse, or a
      failed read of the releases, materials or lead times, is an error; a
      failed read of the release before the window only leaves it unknown.
    */
    method GetDeploymentMetrics(request: MetricRequest, parse: TimeParser, faults: set<Query>)
      returns (r: Result<Metrics>)
      ensures parse(Layout, request.from).None? || parse(Layout, request.to).None? ==>
        r.Err? && r.error == ParseFailure
      ensures r.Ok? ==> fresh(r.value)
      ensures parse(Layout, request.from).Some? && parse(Layout, request.to).Some? ==>
        var releases := GetReleaseBetween(db.releases, request.appId, request.envId,
                                          parse(Layout, request.from).value, parse(Layout, request.to).value);
        && (SelectReleases in faults ==> r.Err? && r.error == DbFailure)
        && (SelectReleases !in faults && releases == [] ==> r.Ok? && r.value.IsEmpty())
        && (SelectReleases !in faults && releases != [] ==>
              && (SelectMaterials in faults || SelectLeadTimes in faults <==> r.Err?)
              && (r.Err? ==> r.error == DbFailure)
              && (r.Ok? ==>
                    r.value.Reports(Points(releases,
                                           FindByAppReleaseIds(db.materials, IdsOf(releases)),
                                           FindByIds(db.leadTimes, IdsOf(releases))),
                                    LastTime(if SelectPrevious in faults then None
                                             else GetPreviousRelease(db.releases, request.appId, request.envId,
                                                                     releases[|releases| - 1].id)))))
    {
      var from := parse(Layout, request.from);
      if from.None? {
        return Err(ParseFailure);
      }
      var to := parse(Layout, request.to);
      if to.None? {
        return Err(ParseFailure);
      }
      if SelectReleases in faults {
        return Err(DbFailure);
      }
      var releases := GetReleaseBetween(db.releases, request.appId, request.envId, from.value, to.value);
      if |releases| == 0 {
        var metrics := new Metrics([], 0.0, 0.0);
        return Ok(metrics);
      }
      var ids: seq<int> := [];
      for i := 0 to |releases|
        invariant ids == IdsOf(releases[..i])
      {
        assert releases[..i + 1][..i] == releases[..i];
        ids := ids + [releases[i].id];
      }
      assert releases[..|releases|] == releases;
      if SelectMaterials in faults {
        return Err(DbFailure);
      }
      var materials := FindByAppReleaseIds(db.materials, ids);
      if SelectLeadTimes in faults {
        return Err(DbFailure);
      }
      var leadTimes := FindByIds(db.leadTimes, ids);
      var lastId := releases[|releases| - 1].id;
      var lastRelease := if SelectPrevious in faults then None
                         else GetPreviousRelease(db.releases, request.appId, request.envId, lastId);
      assert materials == FindByAppReleaseIds(db.materials, IdsOf(releases));
      assert leadTimes == FindByIds(db.leadTimes, IdsOf(releases));
      var metrics := PopulateMetrics(releases, materials, leadTimes, lastRelease);
      r := Ok(metrics);
    }

    /**
      Transform the releases, average the lead times, fill in the cycle times
      and average them, then the failure and recovery figures and, for a
      non-empty series, the change sizes. The source indexes the oldest point
      whenever the release before the window is known, so it needs a point then.
    */
    method PopulateMetrics(appReleases: seq<AppRelease>, materials: seq<PipelineMaterial>, leadTimes: seq<LeadTime>,
                           lastRelease: Option<AppRelease>)
      returns (metrics: Metrics)
      requires |appReleases| > 0 || lastRelease.None?
      ensures fresh(metrics)
      ensures metrics.Reports(Points(appReleases, materials, leadTimes), LastTime(lastRelease))
    {
      var releases := Transform(appReleases, materials, leadTimes);
      var totalLeadTime, leadTimesCount := SumLeadTimes(releases);
      var cycled, totalCycleTime, cycleTimeCount := FillCycleTimes(releases, lastRelease);
      var averageCycleTime := 0.0;
      if cycleTimeCount > 0 {
        averageCycleTime := totalCycleTime as real / cycleTimeCount as real;
      }
      var averageLeadTime := 0.0;
      if leadTimesCount > 0 {
        averageLeadTime := totalLeadTime as real / leadTimesCount as real;
      }
      metrics := new Metrics(cycled, averageCycleTime, averageLeadTime);
      CompleteMetrics(metrics);
    }

    /**
      The end of the population: the failure and recovery figures, then, for a
      non-empty series, the change sizes; a report over no points keeps its
      zero change sizes.
    */
    method CompleteMetrics(metrics: Metrics)
      modifies metrics`series, metrics`lastFailedTime, metrics`recoveryTimeLastFailed,
               metrics`changeFailureRate, metrics`averageRecoveryTime,
               metrics`averageDeploymentSize, metrics`averageLineAdded, metrics`averageLineDeleted
      ensures metrics.series == WithRecoveryTimes(old(metrics.series))
      ensures metrics.lastFailedTime ==
        if old(metrics.lastFailedTime).None? then FirstFailureTime(old(metrics.series)) else old(metrics.lastFailedTime)
      ensures metrics.recoveryTimeLastFailed ==
        KeepFirstRecovery(old(metrics.recoveryTimeLastFailed), Recoveries(old(metrics.series)))
      ensures metrics.changeFailureRate == ChangeFailureRate(old(metrics.series))
      ensures metrics.averageRecoveryTime == AverageRecoveryTime(old(metrics.series))
      ensures |metrics.series| > 0 ==>
            && metrics.averageDeploymentSize == AverageOf(metrics.series, SizeOf)
            && metrics.averageLineAdded == AverageOf(metrics.series, AddedOf)
            && metrics.averageLineDeleted == AverageOf(metrics.series, DeletedOf)
      ensures |metrics.series| == 0 ==>
        && metrics.averageDeploymentSize == old(metrics.averageDeploymentSize)
        && metrics.averageLineAdded == old(metrics.averageLineAdded)
        && metrics.averageLineDeleted == old(metrics.averageLineDeleted)
    {
      CalculateChangeFailureRateAndRecoveryTime(metrics);
      if |metrics.series| > 0 {
        CalculateChangeSize(metrics);
      }
    }

    /** The lead-time loop: the total and number of points that carry a lead time. */
    method SumLeadTimes(releases: seq<Metric>) returns (totalLeadTime: int, leadTimesCount: int)
      ensures totalLeadTime == SumOf(releases, LeadOf)
      ensures leadTimesCount == CountOf(releases, HasLeadTime)
    {
      totalLeadTime, leadTimesCount := 0, 0;
      for i := 0 to |releases|
        invariant leadTimesCount == CountOf(releases[..i], HasLeadTime)
        invariant totalLeadTime == SumOf(releases[..i], LeadOf)
      {
        CountOfStep(releases, HasLeadTime, i);
        SumOfStep(releases, LeadOf, i);
        if releases[i].leadTime != 0 {
          totalLeadTime := totalLeadTime + releases[i].leadTime;
          leadTimesCount := leadTimesCount + 1;
        }
      }
      assert releases[..|releases|] == releases;
    }

    /**
      The cycle-time loop and the oldest point's special case: every point gets
      its cycle time; the total and the count are what the average divides.
    */
    method FillCycleTimes(releases: seq<Metric>, lastRelease: Option<AppRelease>)
      returns (cycled: seq<Metric>, totalCycleTime: int, cycleTimeCount: int)
      requires |releases| > 0 || lastRelease.None?
      ensures cycled == WithCycleTimes(releases, LastTime(lastRelease))
      ensures totalCycleTime == CycleTimeTotal(releases, LastTime(lastRelease))
      ensures cycleTimeCount == CycleTimeCount(releases, LastTime(lastRelease))
    {
      ghost var last := LastTime(lastRelease);
      ghost var w := WithCycleTimes(releases, last);
      cycled, totalCycleTime, cycleTimeCount := releases, 0, |releases|;
      if |releases| == 0 {
        return;
      }
      var n := |releases|;
      var i := 0;
      while i < n - 1
        invariant 0 <= i <= n - 1 && |cycled| == n
        invariant forall k :: 0 <= k < i ==> cycled[k] == w[k]
        invariant forall k :: i <= k < n ==> cycled[k] == releases[k]
        invariant totalCycleTime == SumOf(w[..i], CycleOf)
      {
        SumOfStep(w, CycleOf, i);
        cycled := cycled[i := cycled[i].(cycleTime := cycled[i].releaseTime - cycled[i + 1].releaseTime)];
        totalCycleTime := totalCycleTime + cycled[i].cycleTime;
        i := i + 1;
      }
      SumOfStep(w, CycleOf, n - 1);
      assert w[..n] == w;
      if lastRelease.Some? {
        cycled := cycled[n - 1 := cycled[n - 1].(cycleTime := cycled[n - 1].releaseTime - lastRelease.value.triggerTime)];
        totalCycleTime := totalCycleTime + cycled[n - 1].cycleTime;
      } else {
        cycled := cycled[n - 1 := cycled[n - 1].(cycleTime := 0)];
        cycleTimeCount := cycleTimeCount - 1;
      }
      assert cycled[n - 1] == w[n - 1];
    }

    /**
      Count failures and successes and note the newest failure's time, then
      charge each oldest-of-a-run failure the minutes to the nearest newer
      success, writing it into the point.
    */
    method CalculateChangeFailureRateAndRecoveryTime(metrics: Metrics)
      modifies metrics`series, metrics`lastFailedTime, metrics`recoveryTimeLastFailed,
               metrics`changeFailureRate, metrics`averageRecoveryTime
      ensures metrics.series == WithRecoveryTimes(old(metrics.series))
      ensures metrics.lastFailedTime ==
        if old(metrics.lastFailedTime).None? then FirstFailureTime(old(metrics.series)) else old(metrics.lastFailedTime)
      ensures metrics.recoveryTimeLastFailed ==
        KeepFirstRecovery(old(metrics.recoveryTimeLastFailed), Recoveries(old(metrics.series)))
      ensures metrics.changeFailureRate == ChangeFailureRate(old(metrics.series))
      ensures metrics.averageRecoveryTime == AverageRecoveryTime(old(metrics.series))
    {
      var releases := metrics.series;
      var failed, success, lastFailedTime := CountFailures(releases, metrics.lastFailedTime);
      metrics.lastFailedTime := lastFailedTime;
      var charged, recoveryTime, recovered, kept := ChargeRecoveries(releases, metrics.recoveryTimeLastFailed);
      metrics.series, metrics.recoveryTimeLastFailed := charged, kept;
      var changeFailureRate := 0.0;
      var averageRecoveryTime := 0.0;
      if success + failed > 0 {
        changeFailureRate := (failed * 100) as real / (failed + success) as real;
      }
      if failed > 0 && recovered > 0 {
        averageRecoveryTime := recoveryTime as real / recovered as real;
      }
      metrics.changeFailureRate := changeFailureRate;
      metrics.averageRecoveryTime := averageRecoveryTime;
    }

    /**
      The counting loop: failures, successes and, unless one is already
      known, the time of the newest failure.
    */
    method CountFailures(releases: seq<Metric>, lastFailedTime: Option<int>)
      returns (failed: int, success: int, newest: Option<int>)
      ensures failed == FailedCount(releases) && success == SucceededCount(releases)
      ensures newest == if lastFailedTime.None? then FirstFailureTime(releases) else lastFailedTime
    {
      failed, success, newest := 0, 0, lastFailedTime;
      for i := 0 to |releases|
        invariant failed == FailedCount(releases[..i]) && success == SucceededCount(releases[..i])
        invariant newest == if lastFailedTime.None? then FirstFailureTime(releases[..i]) else lastFailedTime
      {
        FailureStep(releases, i);
        var v := releases[i];
        if v.releaseStatus == Failure {
          if newest.None? {
            newest := Some(v.releaseTime);
          }
          failed := failed + 1;
        }
        if v.releaseStatus == Success {
          success := success + 1;
        }
      }
      assert releases[..|releases|] == releases;
    }

    /**
      The recovery loop: the series with the recovery times written in, their
      total and number, and the "recovery time of the last failure" as updated
      from `recoveryTimeLastFailed`.
    */
    method ChargeRecoveries(releases: seq<Metric>, recoveryTimeLastFailed: int)
      returns (charged: seq<Metric>, recoveryTime: int, recovered: int, kept: int)
      ensures charged == WithRecoveryTimes(releases)
      ensures recoveryTime == RecoveryTotal(releases)
      ensures recovered == RecoveredCount(releases)
      ensures kept == KeepFirstRecovery(recoveryTimeLastFailed, Recoveries(releases))
    {
      ghost var rs := Recoveries(releases);
      ghost var w := WithRecoveryTimes(releases);
      charged, recoveryTime, recovered, kept := releases, 0, 0, recoveryTimeLastFailed;
      for i := 0 to |releases|
        invariant |charged| == |releases|
        invariant forall k :: 0 <= k < i ==> charged[k] == w[k]
        invariant forall k :: i <= k < |releases| ==> charged[k] == releases[k]
        invariant recovered == CountOf(rs[..i], Recovered) && recoveryTime == SumOf(rs[..i], RecoveryMinutes)
        invariant kept == KeepFirstRecovery(recoveryTimeLastFailed, rs[..i])
      {
        RecoveryStep(releases, i, recoveryTimeLastFailed);
        var r := RecoveryFor(releases, i);
        if r.Some? {
          charged := charged[i := charged[i].(recoveryTime := r.value)];
          recoveryTime := recoveryTime + r.value;
          recovered := recovered + 1;
          if kept == 0 {
            kept := r.value;
          }
        }
      }
      assert rs[..|releases|] == rs;
    }

    /**
      The body of the recovery loop for one point: nothing for a success or for
      a failure whose next-older point also failed; otherwise a backwards scan
      for the nearest newer success. Statuses and times are never rewritten by
      the loop, so the scan reads them from the series as it was.
    */
    method RecoveryFor(releases: seq<Metric>, i: int) returns (r: Option<int>)
      requires 0 <= i < |releases|
      ensures r == RecoveryAt(releases, i)
    {
      r := None;
      if releases[i].releaseStatus != Failure {
        return;
      }
      if i < |releases| - 1 && releases[i + 1].releaseStatus == Failure {
        return;
      }
      var j := i - 1;
      while j >= 0
        invariant -1 <= j < i
        invariant NewerSuccess(releases, i) == NewerSuccess(releases, j + 1)
      {
        if releases[j].releaseStatus == Success {
          r := Some(releases[j].releaseTime - releases[i].releaseTime);
          return;
        }
        j := j - 1;
      }
    }

    /** The three change-size averages over a non-empty series. */
    method CalculateChangeSize(metrics: Metrics)
      requires |metrics.series| > 0
      modifies metrics`averageDeploymentSize, metrics`averageLineAdded, metrics`averageLineDeleted
      ensures metrics.averageDeploymentSize == AverageOf(metrics.series, SizeOf)
      ensures metrics.averageLineAdded == AverageOf(metrics.series, AddedOf)
      ensures metrics.averageLineDeleted == AverageOf(metrics.series, DeletedOf)
    {
      var releases := metrics.series;
      var lineAdded, lineDeleted, deploymentSize := 0, 0, 0;
      for i := 0 to |releases|
        invariant lineAdded == SumOf(releases[..i], AddedOf)
        invariant lineDeleted == SumOf(releases[..i], DeletedOf)
        invariant deploymentSize == SumOf(releases[..i], SizeOf)
      {
        SumOfStep(releases, AddedOf, i);
        SumOfStep(releases, DeletedOf, i);
        SumOfStep(releases, SizeOf, i);
        var v := releases[i];
        lineAdded := lineAdded + v.changeSizeLineAdded;
        lineDeleted := lineDeleted + v.changeSizeLineDeleted;
        deploymentSize := deploymentSize + v.deploymentSize;
      }
      assert releases[..|releases|] == releases;
      metrics.averageDeploymentSize := deploymentSize as real / |releases| as real;
      metrics.averageLineAdded := lineAdded as real / |releases| as real;
      metrics.averageLineDeleted := lineDeleted as real / |releases| as real;
    }

    /**
      One point per release, in order; the commit hash and lead time come from
      maps filled from the material and lead-time rows, the last row of a
      release winning.
    */
    method Transform(releases: seq<AppRelease>, materials: seq<PipelineMaterial>, leadTimes: seq<LeadTime>)
      returns (metrics: seq<Metric>)
      ensures metrics == Points(releases, materials, leadTimes)
    {
      var pm := BuildIndex(materials, PipelineMaterials.AppReleaseIdOf, CommitHashOf);
      var lt := BuildIndex(leadTimes, LeadTimes.AppReleaseIdOf, LeadTimeOf);
      metrics := [];
      for i := 0 to |releases|
        invariant |metrics| == i
        invariant forall k :: 0 <= k < i ==> metrics[k] == PointOf(releases[k], pm, lt)
      {
        metrics := metrics + [PointOf(releases[i], pm, lt)];
      }
    }
  }
}
