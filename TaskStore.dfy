/**
 The four operations of the task store, each computing the new task list
 from the old one as the dashboard does with spread, `filter` and `map`
 before handing it to `setTaskList`.
 */
module TaskStore {
  import opened TaskModel

  /**
   Adds a task when the title, deadline date and deadline time fields are all
   filled in (a `None` date or time is an empty input field); otherwise the
   list is left as it is. The id is the caller's creation timestamp.
   */
  function AddTask(ts: seq<Task>, id: int, title: string, deadline: Option<int>,
                   deadlineTime: Option<int>, grade: Option<real>, notes: string): (r: seq<Task>)
    ensures title == [] || deadline.None? || deadlineTime.None? ==> r == ts
    ensures title != [] && deadline.Some? && deadlineTime.Some? ==>
              |r| == |ts| + 1 && r[..|ts|] == ts &&
              r[|ts|] == Task(id, title, deadline.value, deadlineTime.value, false, None, grade, Some(notes))
    ensures AllConsistent(ts) ==> AllConsistent(r)
  {
    if title != [] && deadline.Some? && deadlineTime.Some? then
      ts + [Task(id, title, deadline.value, deadlineTime.value, false, None, grade, Some(notes))]
    else
      ts
  }

  /** Removes every task carrying the id; the others stay, in order. */
  function RemoveTask(ts: seq<Task>, id: int): (r: seq<Task>)
    ensures |r| <= |ts|
    ensures forall t :: t in r <==> t in ts && t.id != id
    ensures (forall t :: t in ts ==> t.id != id) ==> r == ts
    ensures AllConsistent(ts) ==> AllConsistent(r)
  {
    FilterKeepsAll(ts, OtherId(id));
    Filter(ts, OtherId(id))
  }

  /** The record a toggle turns `t` into at instant `now`. */
  function Toggled(t: Task, now: int): Task
  {
    t.(completed := !t.completed, completedAt := if !t.completed then Some(now) else None)
  }

  /**
   Flips the completion of every task carrying the id, stamping the completion
   instant when the task becomes completed and clearing it otherwise.
   */
  function ToggleTask(ts: seq<Task>, id: int, now: int): (r: seq<Task>)
    ensures |r| == |ts|
    ensures forall i :: 0 <= i < |ts| && ts[i].id != id ==> r[i] == ts[i]
    ensures forall i :: 0 <= i < |ts| && ts[i].id == id ==>
              && r[i].completed == !ts[i].completed
              && r[i].completedAt == (if r[i].completed then Some(now) else None)
              && r[i] == ts[i].(completed := r[i].completed, completedAt := r[i].completedAt)
  {
    if ts == [] then []
    else [if ts[0].id == id then Toggled(ts[0], now) else ts[0]] + ToggleTask(ts[1..], id, now)
  }

  /** Toggling an id no task carries changes nothing. */
  lemma ToggleAbsentId(ts: seq<Task>, id: int, now: int)
    requires forall t :: t in ts ==> t.id != id
    ensures ToggleTask(ts, id, now) == ts
  {
    var r := ToggleTask(ts, id, now);
    forall i | 0 <= i < |ts| ensures r[i] == ts[i] {
      assert ts[i] in ts;
    }
  }

  /** Toggling keeps "a completion instant is present exactly when completed". */
  lemma ToggleKeepsConsistent(ts: seq<Task>, id: int, now: int)
    requires AllConsistent(ts)
    ensures AllConsistent(ToggleTask(ts, id, now))
  {
    var r := ToggleTask(ts, id, now);
    forall t | t in r ensures Consistent(t) {
      var i :| 0 <= i < |r| && r[i] == t;
      assert ts[i] in ts;
    }
  }

  /** Replaces every task whose id is the given task's with the given task, whole. */
  function UpdateTask(ts: seq<Task>, u: Task): (r: seq<Task>)
    ensures |r| == |ts|
    ensures forall i :: 0 <= i < |ts| ==> r[i] == if ts[i].id == u.id then u else ts[i]
    ensures (forall t :: t in ts ==> t.id != u.id) ==> r == ts
  {
    if ts == [] then []
    else [if ts[0].id == u.id then u else ts[0]] + UpdateTask(ts[1..], u)
  }

  /** Removing keeps the relative order: it works piecewise on a concatenation. */
  lemma RemoveKeepsOrder(a: seq<Task>, b: seq<Task>, id: int)
    ensures RemoveTask(a + b, id) == RemoveTask(a, id) + RemoveTask(b, id)
  {
    FilterConcat(a, b, OtherId(id));
  }

  /** Adding a task under a fresh id and removing that id gives back the list. */
  lemma AddThenRemove(ts: seq<Task>, id: int, title: string, deadline: Option<int>,
                      deadlineTime: Option<int>, grade: Option<real>, notes: string)
    requires forall t :: t in ts ==> t.id != id
    ensures RemoveTask(AddTask(ts, id, title, deadline, deadlineTime, grade, notes), id) == ts
  {
    var added := AddTask(ts, id, title, deadline, deadlineTime, grade, notes);
    if added != ts {
      var n := Task(id, title, deadline.value, deadlineTime.value, false, None, grade, Some(notes));
      assert added == ts + [n];
      FilterConcat(ts, [n], OtherId(id));
      assert RemoveTask(ts, id) == ts;
      assert Filter([n], OtherId(id)) == [];
    }
  }

  /**
   Toggling twice restores every task that started pending with no completion
   instant; only the two stamps' instants could tell the calls apart.
   */
  lemma {:induction false} ToggleTwice(ts: seq<Task>, id: int, now1: int, now2: int)
    requires forall t :: t in ts && t.id == id ==> !t.completed && t.completedAt.None?
    ensures ToggleTask(ToggleTask(ts, id, now1), id, now2) == ts
  {
    if ts != [] {
      ToggleTwice(ts[1..], id, now1, now2);
      assert ToggleTask(ts, id, now1)[1..] == ToggleTask(ts[1..], id, now1);
    }
  }

  /**
   Toggling tasks that are all completed takes them out of every completed-only
   view exactly as removing them would (the histogram and the completion count
   lose them).
   */
  lemma {:induction false} ToggleBackLikeRemove(ts: seq<Task>, id: int, now: int, c: Criterion)
    requires forall t :: t in ts && t.id == id ==> t.completed
    requires forall t :: Matches(t, c) ==> t.completed
    ensures Filter(ToggleTask(ts, id, now), c) == Filter(RemoveTask(ts, id), c)
  {
    if ts != [] {
      ToggleBackLikeRemove(ts[1..], id, now, c);
      var r := ToggleTask(ts, id, now);
      assert r == [r[0]] + ToggleTask(ts[1..], id, now);
      FilterConcat([r[0]], ToggleTask(ts[1..], id, now), c);
      FilterConcat([ts[0]], ts[1..], OtherId(id));
      assert ts == [ts[0]] + ts[1..];
      FilterConcat(Filter([ts[0]], OtherId(id)), Filter(ts[1..], OtherId(id)), c);
    }
  }

  /** Updating is idempotent. */
  lemma {:induction false} UpdateIdempotent(ts: seq<Task>, u: Task)
    ensures UpdateTask(UpdateTask(ts, u), u) == UpdateTask(ts, u)
  {
    if ts != [] {
      UpdateIdempotent(ts[1..], u);
      assert UpdateTask(ts, u)[1..] == UpdateTask(ts[1..], u);
    }
  }

  /** An update with a consistent record keeps the whole list consistent. */
  lemma UpdateKeepsConsistent(ts: seq<Task>, u: Task)
    requires AllConsistent(ts) && Consistent(u)
    ensures AllConsistent(UpdateTask(ts, u))
  {
    var r := UpdateTask(ts, u);
    forall t | t in r ensures Consistent(t) {
      var i :| 0 <= i < |r| && r[i] == t;
      assert ts[i] in ts;
    }
  }
}
