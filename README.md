# Task tracker core of the study dashboard, in Dafny

The `Dashboard` page of the app keeps a list of study tasks. Each task has a
title, a deadline date and time, a completion flag with a completion instant,
an optional grade and notes. The page lets the user add, remove, toggle and
edit tasks. From the current list it derives a statistics card (completion
percentage, average grade, overdue count), a seven-day completion histogram
and a filtered view (all, completed, pending, overdue). Once a minute it
checks for overdue tasks and raises a notification for each.

This project models that core and proves its properties:

- `TaskModel.dfy` holds the `Task` record with dates and times as integers.
  The deadline date is a day number and the deadline time is minutes into that
  day. Their instant is `day * 1440 + minutes`. The completion instant is in
  minutes too, and its calendar day is `instant / 1440`. Every
  `taskList.filter(task => ...)` of the page becomes `Filter(ts, c)` for one
  value `c` of the `Criterion` datatype. Order, membership and counting are
  proved once for `Filter`.
- `TaskStore.dfy` holds the four commands as functions from the old list to
  the new list, with their round trips and invariants.
- `Metrics.dfy` holds the statistics card, the view filter and the weekly
  histogram. The histogram is a method with the page's seven-step loop.
- `OverdueMonitor.dfy` holds what one tick of the overdue check notifies.
- `TaskTracker.dfy` holds the `Dashboard` class. Its `taskList` field is
  replaced by each command. Its `OverdueTick` method walks the list as the
  interval callback does. A client method, `RepeatedTicks`, is one
  illustration: a single overdue task is notified again on every tick.

Time is given, not read: every operation that reads the clock takes `now` (an
instant in minutes) as a parameter, and `AddTask` takes the new id as one. A
`None` deadline date or time stands for an empty input field.

Where the code's behaviour may surprise a reader, the model follows the code:

- The id of a new task is the creation timestamp, which is not guaranteed
  unique. So remove, toggle and update act on every task with the given id.
  The model assumes no uniqueness.
- The "overdue" count and view use a strict comparison (deadline before now).
  The tick uses deadline at or before now. So the tick can notify a task that
  the statistics do not yet count as overdue.
- A grade of 0 and a missing grade both add 0 to the sum, as `grade || 0` does.

## Model

| member | source | states |
|---|---|---|
| `TaskModel.DeadlineInstantDay` | app/pages/index.tsx:130 | a deadline time within the day puts the deadline instant on the deadline date, at that time of day |
| `TaskModel.Filter` | app/pages/index.tsx:163-172 | a filtered list is never longer than the list, and holds exactly the tasks of the list that match |
| `TaskModel.FilterConcat` | app/pages/index.tsx:163-172 | filtering works piecewise on a concatenation, so relative order is kept |
| `TaskModel.FilterKeepsAll` | app/pages/index.tsx:171 | a filter returns the list itself exactly when every task matches |
| `TaskModel.FilterDropsAll` | app/pages/index.tsx:126 | a filter returns the empty list exactly when no task matches |
| `TaskModel.FilterNarrows` | app/pages/index.tsx:166-170 | filtering by a stronger predicate equals filtering the weaker view again, and is no longer |
| `TaskModel.FilterSplit` | app/pages/index.tsx:168-169 | a predicate that is the disjoint union of two others counts the sum of their counts |
| `TaskStore.AddTask` | app/pages/index.tsx:75-88 | with an empty title, date or time the list is unchanged; otherwise exactly one pending task with no completion instant, the given id, grade and notes is appended, and the old tasks stay in order; the completion invariant is kept |
| `TaskStore.RemoveTask` | app/pages/index.tsx:99-100 | the result holds exactly the tasks with another id, is never longer, equals the list when the id is absent, and keeps the completion invariant |
| `TaskStore.ToggleTask` | app/pages/index.tsx:105-110 | the length is kept; each task with the id flips its flag, and gets a completion instant `now` exactly when it becomes completed, with its other fields unchanged; other tasks are unchanged |
| `TaskStore.ToggleAbsentId` | app/pages/index.tsx:106-110 | toggling an id no task has changes nothing |
| `TaskStore.ToggleKeepsConsistent` | app/pages/index.tsx:106-110 | toggling keeps the completion invariant: a task has a completion instant exactly when it is completed |
| `TaskStore.UpdateTask` | app/pages/index.tsx:115-118 | the length is kept; every task with the id becomes the given record and every other task is unchanged; an absent id changes nothing |
| `TaskStore.RemoveKeepsOrder` | app/pages/index.tsx:100 | removal works piecewise on a concatenation, so the kept tasks stay in order |
| `TaskStore.AddThenRemove` | app/pages/index.tsx:77-88 | adding under a fresh id and then removing that id gives back the original list |
| `TaskStore.ToggleTwice` | app/pages/index.tsx:106-110 | toggling twice restores every task that started pending with no completion instant |
| `TaskStore.ToggleBackLikeRemove` | app/pages/index.tsx:106-110 | un-completing tasks takes them out of every completed-only view (histogram bars, completed count) exactly as removing them would |
| `TaskStore.UpdateIdempotent` | app/pages/index.tsx:116-118 | applying the same update twice equals applying it once |
| `TaskStore.UpdateKeepsConsistent` | app/pages/index.tsx:116-118 | an update with a record whose completion instant matches its flag keeps the completion invariant of the list |
| `Metrics.RoundedPercentage` | app/pages/index.tsx:128 | the percentage is 0 for an empty list, lies in [0, 100] when part <= total, is 0 when nothing is done and 100 when all is done |
| `Metrics.RoundedPercentageIsNearest` | app/pages/index.tsx:128 | the percentage is 100 * part / total rounded to the nearest integer, halves up |
| `Metrics.AverageIsMean` | app/pages/index.tsx:132 | with a positive count, the average times the count gives back the sum |
| `Metrics.ComputeStatistics` | app/pages/index.tsx:125-140 | the percentage lies in [0, 100] and is 0 for an empty list; the average grade is 0 when no task is completed; the days until the next exam are 0; the overdue count is the number of incomplete tasks whose deadline is strictly before now, and never exceeds the list length |
| `Metrics.StatisticsAverage` | app/pages/index.tsx:126-132 | with a completed task, the card's average grade is their mean: added up once per completed task it gives the sum of their grades, a missing grade counting 0 |
| `Metrics.StatisticsPercentageIsNearest` | app/pages/index.tsx:126-128 | for a non-empty list, the card's percentage is 100 * completed / total rounded to the nearest integer, halves up |
| `Metrics.OverdueCountIsOverdueView` | app/pages/index.tsx:130 | the overdue count of the card is the size of the overdue view at the same instant |
| `Metrics.AllCompletedStatistics` | app/pages/index.tsx:126-128 | a non-empty list of completed tasks is 100% complete |
| `Metrics.NoneCompletedStatistics` | app/pages/index.tsx:126-132 | with no completed task the percentage and the average grade are 0 |
| `Metrics.GradeSumBounds` | app/pages/index.tsx:131 | with every grade in [lo, hi], the grade sum lies between the sum of count copies of lo and of hi |
| `Metrics.AverageOfBoundedGrades` | app/pages/index.tsx:131-132 | grades all in [lo, hi] average to a value in [lo, hi] |
| `Metrics.AverageBounds` | app/pages/index.tsx:132 | a sum between count copies of lo and count copies of hi averages to a value in [lo, hi] |
| `Metrics.AverageGradeBounds` | app/pages/index.tsx:131-132 | the average grade lies between the least and greatest grade of the completed tasks |
| `Metrics.NamedViewContents` | app/pages/index.tsx:163-170 | the "completed" view holds exactly the completed tasks of the list, the "pending" view exactly the incomplete ones, and the "overdue" view exactly the incomplete ones whose deadline is strictly before now |
| `Metrics.FilteredTasks` | app/pages/index.tsx:163-172 | the view holds exactly the tasks matching the mode; an unknown mode shows the whole list; the overdue view holds no completed task |
| `Metrics.ViewKeepsOrder` | app/pages/index.tsx:163-172 | every view works piecewise on a concatenation, so list order is kept |
| `Metrics.CompletedPendingPartition` | app/pages/index.tsx:168-169 | the completed and pending views together are as long as the list |
| `Metrics.OverdueWithinPending` | app/pages/index.tsx:166-170 | the overdue view is the pending view filtered again, so it is never larger |
| `Metrics.UpdatedPastDeadlineIsOverdue` | app/pages/index.tsx:165-170 | a pending task updated to a deadline already passed is in the overdue view of the new list |
| `Metrics.OnlyCompletedTasksCount` | app/pages/index.tsx:149-153 | a histogram bar counts the same tasks when pending tasks are dropped first |
| `Metrics.ProgressTotalIsWindowCount` | app/pages/index.tsx:147-158 | bars for consecutive days add up to the completed tasks whose completion day falls in that span |
| `Metrics.WeeklyProgress` | app/pages/index.tsx:142-161 | exactly 7 bars for the days today - 6 to today, oldest first; each counts the completed tasks whose completion day (completion instant's day, else the deadline day) it is; the bars sum to the completed tasks in the window, which is at most the completed count |
| `OverdueMonitor.Titles` | app/pages/index.tsx:188 | one title per task, in list order |
| `OverdueMonitor.Notifications` | app/pages/index.tsx:181-193 | as many notifications as incomplete tasks due at or before now, so no more than the list length, and every such task's title is among them |
| `OverdueMonitor.NotificationsOnlyDue` | app/pages/index.tsx:183-188 | every notified title is the title of an incomplete task of the list due at or before now |
| `OverdueMonitor.NotificationsStep` | app/pages/index.tsx:182-193 | notifications follow list order: one more task at the end adds its title at the end exactly when it is incomplete and due, and nothing otherwise |
| `OverdueMonitor.NotificationsCoverOverdue` | app/pages/index.tsx:185 | a tick notifies at least as many tasks as the statistics count overdue at the same instant |
| `OverdueMonitor.NotificationsAreOverdueNextMinute` | app/pages/index.tsx:185 | on whole-minute instants, a tick notifies as many tasks as the statistics count overdue one minute later |
| `OverdueMonitor.NotificationsGrowWithTime` | app/pages/index.tsx:183-185 | a later tick notifies at least as many tasks as an earlier one over the same list |
| `OverdueMonitor.NotificationsIgnoreCompleted` | app/pages/index.tsx:183 | completed tasks never affect the notifications |
| `TaskTracker.Dashboard.constructor` | app/pages/index.tsx:52-63 | the dashboard starts with no tasks |
| `TaskTracker.Dashboard.AddTask` | app/pages/index.tsx:75-97 | the list becomes the add of the old list, and the completion invariant is kept |
| `TaskTracker.Dashboard.RemoveTask` | app/pages/index.tsx:99-103 | the list becomes the removal from the old list, and the completion invariant is kept |
| `TaskTracker.Dashboard.ToggleTask` | app/pages/index.tsx:105-113 | the list becomes the toggle of the old list, and the completion invariant is kept |
| `TaskTracker.Dashboard.UpdateTask` | app/pages/index.tsx:115-123 | the list becomes the update of the old list, and the completion invariant is kept when the new record keeps it |
| `TaskTracker.Dashboard.OverdueTick` | app/pages/index.tsx:180-194 | walking the list, the tick emits exactly the notifications of the current list at `now`, in list order; it changes nothing |

## Left out

- Rendering, the calendar, dialogs, inputs, the select and the chart are user interface.
- Edit-session state (`editingTask`, `isEditModalOpen`) and the resets of the form fields are form plumbing. The commands take their arguments directly.
- React scheduling is not modelled: state setters, the effect that recomputes on every list change, and the direct recompute calls that read the list from before the change. The metrics are functions of the current list instead.
- The interval's start and stop, and delivery of the notification, are asynchronous and foreign calls. A tick returns the titles it would notify. The fixed heading and the description text of the notification are not modelled.
- Parsing of date and time strings, time zones, and the UTC-versus-local reading of a bare deadline date are not modelled. Days and minutes are integers.
- Instants are whole minutes. The real clock has milliseconds, so `NotificationsAreOverdueNextMinute` holds only in this abstraction.
- Metrics.WeeklyProgress: a bar carries its day number instead of the Brazilian Portuguese weekday label. That label comes from a locale formatter.
- Metrics.ComputeStatistics: the average grade is the exact quotient. The rounding to two decimals is float formatting.
- Metrics.RoundedPercentage: the quotient is exact. The floating-point product in the code could round a half the other way.
- Grades are reals. NaN grades are not modelled.
