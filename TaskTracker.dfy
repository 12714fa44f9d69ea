/**
 The dashboard's task state: the `taskList` it holds and replaces on every
 command, and the body of its one-minute overdue check.
 */
module TaskTracker {
  import opened TaskModel
  import TaskStore
  import Metrics
  import OverdueMonitor

  class Dashboard {
    var taskList: seq<Task>

    constructor ()
      ensures taskList == []
    {
      taskList := [];
    }

    /** `id` is the creation timestamp the dashboard takes from the clock. */
    method AddTask(id: int, title: string, deadline: Option<int>, deadlineTime: Option<int>,
                   grade: Option<real>, notes: string)
      modifies this
      ensures taskList == TaskStore.AddTask(old(taskList), id, title, deadline, deadlineTime, grade, notes)
      ensures old(AllConsistent(taskList)) ==> AllConsistent(taskList)
    {
      taskList := TaskStore.AddTask(taskList, id, title, deadline, deadlineTime, grade, notes);
    }

    method RemoveTask(id: int)
      modifies this
      ensures taskList == TaskStore.RemoveTask(old(taskList), id)
      ensures old(AllConsistent(taskList)) ==> AllConsistent(taskList)
    {
      taskList := TaskStore.RemoveTask(taskList, id);
    }

    /** `now` is the clock reading used as the completion instant. */
    method ToggleTask(id: int, now: int)
      modifies this
      ensures taskList == TaskStore.ToggleTask(old(taskList), id, now)
      ensures old(AllConsistent(taskList)) ==> AllConsistent(taskList)
    {
      if AllConsistent(taskList) {
        TaskStore.ToggleKeepsConsistent(taskList, id, now);
      }
      taskList := TaskStore.ToggleTask(taskList, id, now);
    }

    method UpdateTask(updatedTask: Task)
      modifies this
      ensures taskList == TaskStore.UpdateTask(old(taskList), updatedTask)
      ensures old(AllConsistent(taskList)) && Consistent(updatedTask) ==> AllConsistent(taskList)
    {
      if AllConsistent(taskList) && Consistent(updatedTask) {
        TaskStore.UpdateKeepsConsistent(taskList, updatedTask);
      }
      taskList := TaskStore.UpdateTask(taskList, updatedTask);
    }

    /**
     One tick of the overdue check at instant `now`: walks the list and emits
     the title of every incomplete task that is due, leaving the list as it is.
     */
    method OverdueTick(now: int) returns (titles: seq<string>)
      ensures titles == OverdueMonitor.Notifications(taskList, now)
    {
      var tasks := taskList;
      titles := [];
      for i := 0 to |tasks|
        invariant titles == OverdueMonitor.Notifications(tasks[..i], now)
      {
        var task := tasks[i];
        if !task.completed {
          var taskDeadline := DeadlineInstant(task);
          if taskDeadline <= now {
            titles := titles + [task.title];
          }
        }
        OverdueMonitor.NotificationsStep(tasks[..i], task, now);
        assert tasks[..i + 1] == tasks[..i] + [task];
      }
      assert tasks[..|tasks|] == tasks;
    }
  }

  /** The tick polls: an overdue task left incomplete is notified on every tick. */
  method RepeatedTicks(now: int)
  {
    var d := new Dashboard();
    d.AddTask(1, "Essay", Some(0), Some(0), None, "");
    var first := d.OverdueTick(now);
    var second := d.OverdueTick(now);
    if now >= 0 {
      assert first == second == ["Essay"];
    }
  }
}
