/**
 The dashboard's derived metrics, as functions of the current task list and
 the current instant: the statistics card, the view filter and the weekly
 completion histogram.
 */
module Metrics {
  import opened TaskModel
  import TaskStore

  datatype Statistics = Statistics(
    completedTasksPercentage: int,
    averageGrade: real,
    daysUntilNextExam: int,
    overdueActivities: int)

  /** One bar of the weekly histogram: a day number and the tasks completed on it. */
  datatype ProgressPoint = ProgressPoint(day: int, tarefas: nat)

  /** A missing grade contributes 0 to the sum. */
  function GradeOrZero(t: Task): real
  {
    match t.grade
    case Some(g) => g
    case None => 0.0
  }

  function GradeSum(ts: seq<Task>): real
  {
    if ts == [] then 0.0 else GradeOrZero(ts[0]) + GradeSum(ts[1..])
  }

  /**
   `Math.round(part / total * 100)` with a guard for an empty list, in exact
   integer arithmetic (see RoundedPercentageIsNearest).
   */
  function RoundedPercentage(part: nat, total: nat): (r: int)
    ensures total == 0 ==> r == 0
    ensures part <= total ==> 0 <= r <= 100
    ensures part == 0 ==> r == 0
    ensures 0 < part == total ==> r == 100
  {
    if total > 0 then
      RoundingBounds(part, total);
      (200 * part + total) / (2 * total)
    else
      0
  }

  /**
   The percentage is 100 * part / total rounded to the nearest integer, halves
   rounded up: r - 1/2 <= 100 * part / total < r + 1/2.
   */
  lemma RoundedPercentageIsNearest(part: nat, total: nat)
    requires total > 0
    ensures var r := RoundedPercentage(part, total);
            2 * total * r - total <= 200 * part < 2 * total * r + total
  {
    RoundingBounds(part, total);
  }

  lemma RoundingBounds(part: nat, total: nat)
    requires total > 0
    ensures var r := (200 * part + total) / (2 * total);
            2 * total * r - total <= 200 * part < 2 * total * r + total &&
            (part <= total ==> 0 <= r <= 100) &&
            (part == 0 ==> r == 0) &&
            (part == total ==> r == 100)
  {
    var a, b := 200 * part + total, 2 * total;
    var r := a / b;
    var m := a % b;
    assert a == b * r + m && 0 <= m < b;
    if part <= total && r > 100 {
      MulMonotone(b, 101, r);
      assert false;
    }
    if part == 0 {
      assert a == total && b == 2 * total;
      if r >= 1 {
        MulMonotone(b, 1, r);
      }
    }
    if part == total {
      assert a == b * 100 + total;
      if r <= 99 {
        MulMonotone(b, r, 99);
      }
    }
  }

  lemma MulMonotone(k: int, x: int, y: int)
    requires k >= 0 && x <= y
    ensures k * x <= k * y
  {
  }

  /** The criterion a view mode selects by; an unknown mode shows everything. */
  function ViewCriterion(viewMode: string, now: int): Criterion
  {
    if viewMode == "completed" then Completed
    else if viewMode == "pending" then Pending
    else if viewMode == "overdue" then OverdueAt(now)
    else Any
  }

  lemma NamedViewCriteria(now: int)
    ensures ViewCriterion("completed", now) == Completed
    ensures ViewCriterion("pending", now) == Pending
    ensures ViewCriterion("overdue", now) == OverdueAt(now)
  {
    assert "overdue"[0] != "pending"[0];
  }

  /** The three named views, stated on the fields of the tasks they show. */
  lemma NamedViewContents(ts: seq<Task>, now: int)
    ensures forall t :: t in FilteredTasks(ts, "completed", now) <==> t in ts && t.completed
    ensures forall t :: t in FilteredTasks(ts, "pending", now) <==> t in ts && !t.completed
    ensures forall t :: t in FilteredTasks(ts, "overdue", now) <==>
              t in ts && !t.completed && DeadlineInstant(t) < now
  {
    NamedViewCriteria(now);
  }

  /** The tasks shown under a view mode, in list order. */
  function FilteredTasks(ts: seq<Task>, viewMode: string, now: int): (r: seq<Task>)
    ensures forall t :: t in r <==> t in ts && Matches(t, ViewCriterion(viewMode, now))
    ensures viewMode !in {"completed", "pending", "overdue"} ==> r == ts
    ensures viewMode == "overdue" ==> forall t :: t in r ==> !t.completed
  {
    NamedViewCriteria(now);
    FilterKeepsAll(ts, ViewCriterion(viewMode, now));
    Filter(ts, ViewCriterion(viewMode, now))
  }

  /** The grade sum divided by the count, or 0 when nothing is counted. */
  function Average(sum: real, count: nat): real
  {
    if count > 0 then sum / (count as real) else 0.0
  }

  /** The average is the mean: times the count it gives back the sum. */
  lemma AverageIsMean(sum: real, count: nat)
    requires count > 0
    ensures Average(sum, count) * (count as real) == sum
  {
  }

  /** Every view keeps the list's order: it works piecewise on a concatenation. */
  lemma ViewKeepsOrder(a: seq<Task>, b: seq<Task>, viewMode: string, now: int)
    ensures FilteredTasks(a + b, viewMode, now) == FilteredTasks(a, viewMode, now) + FilteredTasks(b, viewMode, now)
  {
    FilterConcat(a, b, ViewCriterion(viewMode, now));
  }

  /** A pending task edited to a deadline already passed shows up in the overdue view. */
  lemma UpdatedPastDeadlineIsOverdue(ts: seq<Task>, u: Task, now: int)
    requires exists i :: 0 <= i < |ts| && ts[i].id == u.id
    requires !u.completed && DeadlineInstant(u) < now
    ensures u in FilteredTasks(TaskStore.UpdateTask(ts, u), "overdue", now)
  {
    var i :| 0 <= i < |ts| && ts[i].id == u.id;
    assert TaskStore.UpdateTask(ts, u)[i] == u;
    NamedViewCriteria(now);
  }

  /** The statistics card for the list at instant `now`. */
  function ComputeStatistics(ts: seq<Task>, now: int): (s: Statistics)
    ensures 0 <= s.completedTasksPercentage <= 100
    ensures |ts| == 0 ==> s.completedTasksPercentage == 0
    ensures |Filter(ts, Completed)| == 0 ==> s.averageGrade == 0.0
    ensures s.daysUntilNextExam == 0
    ensures s.overdueActivities == |Filter(ts, OverdueAt(now))| <= |ts|
  {
    var done := Filter(ts, Completed);
    Statistics(
      RoundedPercentage(|done|, |ts|),
      Average(GradeSum(done), |done|),
      0,
      |Filter(ts, OverdueAt(now))|)
  }

  /**
   The overdue count of the statistics card and the overdue view use the same
   strict comparison, so the count is the size of the view.
   */
  lemma OverdueCountIsOverdueView(ts: seq<Task>, now: int)
    ensures ComputeStatistics(ts, now).overdueActivities == |FilteredTasks(ts, "overdue", now)|
  {
    NamedViewCriteria(now);
  }

  /** A list whose tasks are all completed is 100% complete. */
  lemma AllCompletedStatistics(ts: seq<Task>, now: int)
    requires |ts| > 0 && forall t :: t in ts ==> t.completed
    ensures ComputeStatistics(ts, now).completedTasksPercentage == 100
  {
    FilterKeepsAll(ts, Completed);
  }

  /** With no completed task, both the percentage and the average grade are 0. */
  lemma NoneCompletedStatistics(ts: seq<Task>, now: int)
    requires forall t :: t in ts ==> !t.completed
    ensures ComputeStatistics(ts, now).completedTasksPercentage == 0
    ensures ComputeStatistics(ts, now).averageGrade == 0.0
  {
    FilterDropsAll(ts, Completed);
  }

  /** `n` copies of `x` added up. */
  function Times(n: nat, x: real): real
  {
    if n == 0 then 0.0 else Times(n - 1, x) + x
  }

  lemma {:induction false} TimesIsProduct(n: nat, x: real)
    ensures Times(n, x) == (n as real) * x
  {
    if n > 0 {
      TimesIsProduct(n - 1, x);
    }
  }

  /** With every summed grade in [lo, hi], the sum lies between |ts| copies of lo and of hi. */
  lemma {:induction false} GradeSumBounds(ts: seq<Task>, lo: real, hi: real)
    requires forall t :: t in ts ==> lo <= GradeOrZero(t) <= hi
    ensures Times(|ts|, lo) <= GradeSum(ts) <= Times(|ts|, hi)
  {
    if ts != [] {
      assert ts[0] in ts;
      GradeSumBounds(ts[1..], lo, hi);
    }
  }

  /** The average grade is a mean: it lies between the least and greatest completed grade. */
  lemma AverageGradeBounds(ts: seq<Task>, now: int, lo: real, hi: real)
    requires forall t :: t in ts && t.completed ==> lo <= GradeOrZero(t) <= hi
    requires exists t :: t in ts && t.completed
    ensures lo <= ComputeStatistics(ts, now).averageGrade <= hi
  {
    var done := Filter(ts, Completed);
    var t :| t in ts && t.completed;
    assert t in done;
    AverageGradeOfCompleted(ts, now);
    AverageOfBoundedGrades(done, lo, hi);
  }

  lemma AverageGradeOfCompleted(ts: seq<Task>, now: int)
    ensures ComputeStatistics(ts, now).averageGrade ==
            Average(GradeSum(Filter(ts, Completed)), |Filter(ts, Completed)|)
  {
  }

  lemma MeanOf(a: real, sum: real, count: nat)
    requires count > 0 && a == Average(sum, count)
    ensures Times(count, a) == sum
  {
    AverageIsMean(sum, count);
    TimesIsProduct(count, a);
  }

  /**
   The card's average grade is the mean over the completed tasks: added up once
   per completed task it gives back the sum of their grades, a missing grade
   counting 0.
   */
  lemma StatisticsAverage(ts: seq<Task>, now: int)
    ensures var done := Filter(ts, Completed);
            |done| > 0 ==> Times(|done|, ComputeStatistics(ts, now).averageGrade) == GradeSum(done)
  {
    var done := Filter(ts, Completed);
    if |done| > 0 {
      AverageGradeOfCompleted(ts, now);
      MeanOf(ComputeStatistics(ts, now).averageGrade, GradeSum(done), |done|);
    }
  }

  /**
   The card's percentage is the share of completed tasks times 100, rounded to
   the nearest integer with halves up: p - 1/2 <= 100 * done / total < p + 1/2.
   */
  lemma StatisticsPercentageIsNearest(ts: seq<Task>, now: int)
    ensures var p, done, n := ComputeStatistics(ts, now).completedTasksPercentage, |Filter(ts, Completed)|, |ts|;
            n > 0 ==> 2 * n * p - n <= 200 * done < 2 * n * p + n
  {
    if |ts| > 0 {
      RoundedPercentageIsNearest(|Filter(ts, Completed)|, |ts|);
    }
  }

  /** Grades all within [lo, hi] average to a value within [lo, hi]. */
  lemma AverageOfBoundedGrades(ts: seq<Task>, lo: real, hi: real)
    requires ts != [] && forall t :: t in ts ==> lo <= GradeOrZero(t) <= hi
    ensures lo <= Average(GradeSum(ts), |ts|) <= hi
  {
    GradeSumBounds(ts, lo, hi);
    AverageBounds(GradeSum(ts), |ts|, lo, hi);
  }

  lemma AverageBounds(sum: real, count: nat, lo: real, hi: real)
    requires count > 0 && Times(count, lo) <= sum <= Times(count, hi)
    ensures lo <= Average(sum, count) <= hi
  {
    var m, n := Average(sum, count), count as real;
    TimesIsProduct(count, lo);
    TimesIsProduct(count, hi);
    AverageIsMean(sum, count);
    assert n * lo <= n * m <= n * hi;
    CancelPositive(lo, m, n);
    CancelPositive(m, hi, n);
  }

  lemma CancelPositive(a: real, b: real, n: real)
    requires n > 0.0 && n * a <= n * b
    ensures a <= b
  {
  }

  /** The completed and pending views split the list between them. */
  lemma CompletedPendingPartition(ts: seq<Task>, now: int)
    ensures |FilteredTasks(ts, "completed", now)| + |FilteredTasks(ts, "pending", now)| == |ts|
  {
    NamedViewCriteria(now);
    FilterSplit(ts, Any, Completed, Pending);
    FilterKeepsAll(ts, Any);
  }

  /** The overdue view is the pending view filtered again, so never larger than it. */
  lemma OverdueWithinPending(ts: seq<Task>, now: int)
    ensures Filter(FilteredTasks(ts, "pending", now), OverdueAt(now)) == FilteredTasks(ts, "overdue", now)
    ensures |FilteredTasks(ts, "overdue", now)| <= |FilteredTasks(ts, "pending", now)|
  {
    NamedViewCriteria(now);
    FilterNarrows(ts, OverdueAt(now), Pending);
  }

  /** A histogram bar counts completed tasks only: dropping pending tasks changes no bar. */
  lemma OnlyCompletedTasksCount(ts: seq<Task>, day: int)
    ensures Filter(Filter(ts, Completed), CompletedOnDay(day)) == Filter(ts, CompletedOnDay(day))
  {
    FilterNarrows(ts, CompletedOnDay(day), Completed);
  }

  /** The sum of the bars of a histogram. */
  function ProgressTotal(points: seq<ProgressPoint>): int
  {
    if points == [] then 0 else ProgressTotal(points[..|points| - 1]) + points[|points| - 1].tarefas
  }

  /**
   Bars for consecutive days from `first` on add up to the completed tasks whose
   completion day falls in that span: each task is counted on one day at most.
   */
  lemma {:induction false} ProgressTotalIsWindowCount(ts: seq<Task>, points: seq<ProgressPoint>, first: int)
    requires forall k :: 0 <= k < |points| ==>
               points[k] == ProgressPoint(first + k, |Filter(ts, CompletedOnDay(first + k))|)
    ensures ProgressTotal(points) == |Filter(ts, CompletedWithin(first, first + |points| - 1))|
  {
    var n := |points|;
    if n == 0 {
      FilterDropsAll(ts, CompletedWithin(first, first - 1));
    } else {
      ProgressTotalIsWindowCount(ts, points[..n - 1], first);
      FilterSplit(ts, CompletedWithin(first, first + n - 1),
                  CompletedWithin(first, first + n - 2), CompletedOnDay(first + n - 1));
    }
  }

  /**
   The weekly histogram for instant `now`: seven bars for the days today - 6
   through today, oldest first, each counting the completed tasks whose
   completion day it is.
   */
  method WeeklyProgress(ts: seq<Task>, now: int) returns (points: seq<ProgressPoint>)
    ensures |points| == 7
    ensures forall k :: 0 <= k < 7 ==>
              points[k] == ProgressPoint(DayOf(now) - 6 + k, |Filter(ts, CompletedOnDay(DayOf(now) - 6 + k))|)
    ensures ProgressTotal(points) == |Filter(ts, CompletedWithin(DayOf(now) - 6, DayOf(now)))|
    ensures ProgressTotal(points) <= |Filter(ts, Completed)|
  {
    var today := DayOf(now);
    var oneWeekAgo := today - 6;
    points := [];
    for i := 0 to 7
      invariant |points| == i
      invariant forall k :: 0 <= k < i ==>
                  points[k] == ProgressPoint(oneWeekAgo + k, |Filter(ts, CompletedOnDay(oneWeekAgo + k))|)
    {
      var date := oneWeekAgo + i;
      var tasksCompleted := |Filter(ts, CompletedOnDay(date))|;
      points := points + [ProgressPoint(date, tasksCompleted)];
    }
    ProgressTotalIsWindowCount(ts, points, oneWeekAgo);
    FilterNarrows(ts, CompletedWithin(oneWeekAgo, today), Completed);
  }
}
