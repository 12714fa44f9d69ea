/**
 The task record of the dashboard's tracker, with its dates and times
 abstracted to integers, and the selection criteria its `filter` callbacks
 use. Every `taskList.filter(task => ...)` of the dashboard is modelled as
 `Filter(ts, c)` for one `Criterion` c, so that the facts about filtering
 (order, membership, counting) are proved once.
 */
module TaskModel {

  datatype Option<T> = None | Some(value: T)

  /** Instants are minutes; the calendar day of an instant is `DayOf(instant)`. */
  const MinutesPerDay: int := 1440

  /**
   A task. `deadline` is a day number, `deadlineTime` the minutes since
   midnight of that day, `completedAt` an instant.
   */
  datatype Task = Task(
    id: int,
    title: string,
    deadline: int,
    deadlineTime: int,
    completed: bool,
    completedAt: Option<int>,
    grade: Option<real>,
    notes: Option<string>)

  /** The calendar day an instant falls on (floor division, also before day 0). */
  function DayOf(instant: int): int
  {
    instant / MinutesPerDay
  }

  /** The instant formed from the deadline date and the deadline time of day. */
  function DeadlineInstant(t: Task): int
  {
    t.deadline * MinutesPerDay + t.deadlineTime
  }

  /** A time of day within the day puts the deadline instant on the deadline date. */
  lemma DeadlineInstantDay(t: Task)
    requires 0 <= t.deadlineTime < MinutesPerDay
    ensures DayOf(DeadlineInstant(t)) == t.deadline
    ensures DeadlineInstant(t) % MinutesPerDay == t.deadlineTime
  {
  }

  /**
   The day a completed task is counted on in the weekly histogram: the day of
   `completedAt`, or the deadline day when no completion instant is recorded.
   */
  function CompletionDay(t: Task): int
  {
    match t.completedAt
    case Some(at) => DayOf(at)
    case None => t.deadline
  }

  /** The record invariant: a completion instant is present exactly when the task is completed. */
  predicate Consistent(t: Task)
  {
    t.completed <==> t.completedAt.Some?
  }

  predicate AllConsistent(ts: seq<Task>)
  {
    forall t :: t in ts ==> Consistent(t)
  }

  /** The selection predicates the dashboard filters its task list with. */
  datatype Criterion =
    | Any                                  // the default branch of the view filter
    | OtherId(id: int)                     // removeTask
    | Completed                            // completed tasks
    | Pending                              // incomplete tasks
    | OverdueAt(now: int)                  // incomplete, deadline strictly before now
    | DueBy(now: int)                      // incomplete, deadline at or before now (the tick)
    | CompletedOnDay(day: int)             // one histogram bar
    | CompletedWithin(first: int, last: int)  // the histogram's window as a whole

  predicate Matches(t: Task, c: Criterion)
  {
    match c
    case Any => true
    case OtherId(id) => t.id != id
    case Completed => t.completed
    case Pending => !t.completed
    case OverdueAt(now) => !t.completed && DeadlineInstant(t) < now
    case DueBy(now) => !t.completed && DeadlineInstant(t) <= now
    case CompletedOnDay(day) => t.completed && CompletionDay(t) == day
    case CompletedWithin(first, last) => t.completed && first <= CompletionDay(t) <= last
  }

  /** The tasks of `ts` that match `c`, in their original order. */
  function Filter(ts: seq<Task>, c: Criterion): (r: seq<Task>)
    ensures |r| <= |ts|
    ensures forall t :: t in r <==> t in ts && Matches(t, c)
  {
    if ts == [] then []
    else if Matches(ts[0], c) then [ts[0]] + Filter(ts[1..], c)
    else Filter(ts[1..], c)
  }

  /** A view keeps the whole list exactly when every task matches. */
  lemma {:induction false} FilterKeepsAll(ts: seq<Task>, c: Criterion)
    ensures Filter(ts, c) == ts <==> forall t :: t in ts ==> Matches(t, c)
  {
    if ts != [] {
      FilterKeepsAll(ts[1..], c);
      if !Matches(ts[0], c) {
        assert |Filter(ts, c)| < |ts|;
      }
    }
  }

  /** A view is empty exactly when no task matches. */
  lemma {:induction false} FilterDropsAll(ts: seq<Task>, c: Criterion)
    ensures Filter(ts, c) == [] <==> forall t :: t in ts ==> !Matches(t, c)
  {
    var r := Filter(ts, c);
    if r != [] {
      assert r[0] in r;
    }
  }

  /** Filtering distributes over concatenation: relative order is kept. */
  lemma {:induction false} FilterConcat(a: seq<Task>, b: seq<Task>, c: Criterion)
    ensures Filter(a + b, c) == Filter(a, c) + Filter(b, c)
  {
    if a == [] {
      assert a + b == b;
    } else {
      assert (a + b)[0] == a[0];
      assert (a + b)[1..] == a[1..] + b;
      FilterConcat(a[1..], b, c);
    }
  }

  /** Two criteria that select the same tasks give the same view. */
  lemma {:induction false} FilterSameMatches(ts: seq<Task>, c1: Criterion, c2: Criterion)
    requires forall t :: Matches(t, c1) <==> Matches(t, c2)
    ensures Filter(ts, c1) == Filter(ts, c2)
  {
    if ts != [] {
      FilterSameMatches(ts[1..], c1, c2);
    }
  }

  /**
   Filtering by a stronger criterion is filtering the weaker view again: the
   stronger view is an order-preserving part of the weaker one, and no longer.
   */
  lemma {:induction false} FilterNarrows(ts: seq<Task>, strong: Criterion, weak: Criterion)
    requires forall t :: Matches(t, strong) ==> Matches(t, weak)
    ensures Filter(Filter(ts, weak), strong) == Filter(ts, strong)
    ensures |Filter(ts, strong)| <= |Filter(ts, weak)|
  {
    if ts != [] {
      FilterNarrows(ts[1..], strong, weak);
    }
  }

  /** A criterion that is the disjoint union of two others counts their sum. */
  lemma {:induction false} FilterSplit(ts: seq<Task>, c: Criterion, c1: Criterion, c2: Criterion)
    requires forall t :: Matches(t, c) <==> Matches(t, c1) || Matches(t, c2)
    requires forall t :: !(Matches(t, c1) && Matches(t, c2))
    ensures |Filter(ts, c)| == |Filter(ts, c1)| + |Filter(ts, c2)|
  {
    if ts != [] {
      FilterSplit(ts[1..], c, c1, c2);
    }
  }
}
