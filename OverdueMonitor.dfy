/**
 The overdue monitor: what one tick of the dashboard's one-minute interval
 notifies, as a function of the task list and the instant of the tick.
 */
module OverdueMonitor {
  import opened TaskModel
  import Metrics

  /** The titles of the tasks, in list order. */
  function Titles(ts: seq<Task>): (r: seq<string>)
    ensures |r| == |ts|
    ensures forall i :: 0 <= i < |ts| ==> r[i] == ts[i].title
  {
    if ts == [] then [] else [ts[0].title] + Titles(ts[1..])
  }

  lemma TitlesConcat(a: seq<Task>, b: seq<Task>)
    ensures Titles(a + b) == Titles(a) + Titles(b)
  {
  }

  /**
   The notifications of one tick at instant `now`: the title of every
   incomplete task whose deadline instant is at or before `now`, in list order.
   */
  function Notifications(ts: seq<Task>, now: int): (r: seq<string>)
    ensures |r| == |Filter(ts, DueBy(now))| <= |ts|
    ensures forall t :: t in ts && !t.completed && DeadlineInstant(t) <= now ==> t.title in r
  {
    var due := Filter(ts, DueBy(now));
    assert forall t :: t in due ==> t.title in Titles(due) by {
      forall t | t in due ensures t.title in Titles(due) {
        var i :| 0 <= i < |due| && due[i] == t;
        assert Titles(due)[i] == t.title;
      }
    }
    Titles(due)
  }

  /** Only due tasks are notified: every notified title is that of an incomplete task due by `now`. */
  lemma NotificationsOnlyDue(ts: seq<Task>, now: int)
    ensures forall s :: s in Notifications(ts, now) ==>
              exists t :: t in ts && !t.completed && DeadlineInstant(t) <= now && t.title == s
  {
    var due := Filter(ts, DueBy(now));
    forall s | s in Notifications(ts, now)
      ensures exists t :: t in ts && !t.completed && DeadlineInstant(t) <= now && t.title == s
    {
      var i :| 0 <= i < |due| && Titles(due)[i] == s;
      assert due[i] in due;
    }
  }

  /**
   The notifications follow list order: one more task at the end adds its
   title at the end exactly when it is incomplete and due, and nothing else.
   */
  lemma NotificationsStep(ts: seq<Task>, t: Task, now: int)
    ensures Notifications(ts + [t], now) ==
            Notifications(ts, now) + (if !t.completed && DeadlineInstant(t) <= now then [t.title] else [])
  {
    FilterConcat(ts, [t], DueBy(now));
    assert Filter([t], DueBy(now)) == if Matches(t, DueBy(now)) then [t] else [];
    TitlesConcat(Filter(ts, DueBy(now)), Filter([t], DueBy(now)));
  }

  /**
   A tick notifies at least as many tasks as the statistics count overdue at
   the same instant: the tick also fires for a deadline exactly at `now`.
   */
  lemma NotificationsCoverOverdue(ts: seq<Task>, now: int)
    ensures |Notifications(ts, now)| >= Metrics.ComputeStatistics(ts, now).overdueActivities
  {
    FilterNarrows(ts, OverdueAt(now), DueBy(now));
  }

  /**
   On whole minutes the two comparisons differ by one minute: a tick notifies
   exactly the tasks the statistics would count as overdue a minute later.
   */
  lemma NotificationsAreOverdueNextMinute(ts: seq<Task>, now: int)
    ensures |Notifications(ts, now)| == Metrics.ComputeStatistics(ts, now + 1).overdueActivities
  {
    FilterSameMatches(ts, DueBy(now), OverdueAt(now + 1));
  }

  /** A task once due stays due: later ticks notify at least as many tasks. */
  lemma NotificationsGrowWithTime(ts: seq<Task>, now1: int, now2: int)
    requires now1 <= now2
    ensures |Notifications(ts, now1)| <= |Notifications(ts, now2)|
  {
    FilterNarrows(ts, DueBy(now1), DueBy(now2));
  }

  /** Completed tasks are never notified: the tick sees only the pending tasks. */
  lemma NotificationsIgnoreCompleted(ts: seq<Task>, now: int)
    ensures Notifications(ts, now) == Notifications(Filter(ts, Pending), now)
  {
    FilterNarrows(ts, DueBy(now), Pending);
  }
}
