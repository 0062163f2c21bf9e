/** The `TaskManager` object of src/script.js without its DOM work: the task
    list it keeps in `this.tasks`, the current filter, and what it last wrote
    to local storage. Form fields and clock readings arrive as parameters. */
module TaskStore {
  import opened Tasks

  class TaskManager {
    var tasks: seq<Task>
    var currentFilter: string
    /** What local storage holds under the key 'devops-tasks'; None while
        nothing has been stored. */
    ghost var storage: Option<seq<Task>>

    /** Starts from the stored list, or from an empty one when nothing is
        stored, showing every task. */
    constructor (stored: Option<seq<Task>>)
      ensures tasks == (if stored.Some? then stored.value else [])
      ensures currentFilter == "all"
      ensures storage == stored
    {
      tasks := if stored.Some? then stored.value else [];
      currentFilter := "all";
      storage := stored;
    }

    /** `saveTasks`: local storage now holds the whole current list. */
    method SaveTasks()
      modifies this`storage
      ensures storage == Some(tasks)
      ensures tasks == old(tasks) && currentFilter == old(currentFilter)
    {
      storage := Some(tasks);
    }

    /** `addTask`: a blank description is refused and nothing changes, not
        even storage; otherwise the new record goes first and the list is
        saved. */
    method AddTask(input: string, priority: string, dueInput: string, now: int, stamp: string)
      modifies this
      ensures tasks == AddedTasks(old(tasks), input, priority, dueInput, now, stamp)
      ensures storage == if Trim(input) == [] then old(storage) else Some(tasks)
      ensures currentFilter == old(currentFilter)
      ensures WellFormed(old(tasks)) && (forall t :: t in old(tasks) ==> t.id != now) ==> WellFormed(tasks)
    {
      var text := Trim(input);
      if text == [] {
        return;
      }
      var task := NewTask(now, text, priority, dueInput, stamp);
      ghost var before := tasks;
      tasks := [task] + tasks;
      SaveTasks();
      if WellFormed(before) && (forall t :: t in before ==> t.id != now) {
        AddedKeepsWellFormed(before, input, priority, dueInput, now, stamp);
      }
    }

    /** `deleteTask`: every record with the id goes, the rest stay in order. */
    method DeleteTask(id: int)
      modifies this
      ensures tasks == Without(old(tasks), id)
      ensures currentFilter == old(currentFilter) && storage == Some(tasks)
      ensures WellFormed(old(tasks)) ==> WellFormed(tasks)
    {
      if WellFormed(tasks) {
        DeleteKeepsWellFormed(tasks, id);
      }
      tasks := Without(tasks, id);
      SaveTasks();
    }

    /** `toggleComplete`: flips and stamps every record with the id. */
    method ToggleComplete(id: int, stamp: string)
      modifies this
      ensures tasks == Toggled(old(tasks), id, stamp)
      ensures currentFilter == old(currentFilter) && storage == Some(tasks)
      ensures WellFormed(old(tasks)) ==> WellFormed(tasks)
    {
      if WellFormed(tasks) {
        ToggleKeepsWellFormed(tasks, id, stamp);
      }
      tasks := Toggled(tasks, id, stamp);
      SaveTasks();
    }

    /** `editTask`: a blank new text leaves everything as it was (nothing is
        saved either); otherwise every record with the id gets the trimmed
        text and a new stamp. */
    method EditTask(id: int, newText: string, stamp: string)
      modifies this
      ensures Trim(newText) == [] ==> tasks == old(tasks) && storage == old(storage)
      ensures Trim(newText) != [] ==> tasks == Edited(old(tasks), id, Trim(newText), stamp) && storage == Some(tasks)
      ensures currentFilter == old(currentFilter)
      ensures WellFormed(old(tasks)) ==> WellFormed(tasks)
    {
      if Trim(newText) == [] {
        return;
      }
      if WellFormed(tasks) {
        EditKeepsWellFormed(tasks, id, newText, stamp);
      }
      tasks := Edited(tasks, id, Trim(newText), stamp);
      SaveTasks();
    }

    /** `setFilter`: only the view selection changes. */
    method SetFilter(filter: string)
      modifies this`currentFilter
      ensures currentFilter == filter
    {
      currentFilter := filter;
    }

    /** `clearCompleted`: every completed record goes, every other one stays in
        order; the counters then show nothing completed. */
    method ClearCompleted()
      modifies this
      ensures tasks == ActiveTasks(old(tasks))
      ensures StatsOf(tasks) == Stats(StatsOf(old(tasks)).pending, 0, StatsOf(old(tasks)).pending)
      ensures currentFilter == old(currentFilter) && storage == Some(tasks)
      ensures WellFormed(old(tasks)) ==> WellFormed(tasks)
    {
      ClearCompletedCounts(tasks);
      if WellFormed(tasks) {
        ClearKeepsWellFormed(tasks);
      }
      tasks := ActiveTasks(tasks);
      SaveTasks();
    }

    /** The filtering step of `loadTasks`: the records the list shows. */
    method LoadTasks() returns (view: seq<Task>)
      ensures view == FilterView(tasks, currentFilter)
      ensures IsSubseq(view, tasks)
    {
      view := FilterView(tasks, currentFilter);
    }

    /** `updateStats`: the three counters shown on the page. */
    method UpdateStats() returns (stats: Stats)
      ensures stats == StatsOf(tasks)
      ensures stats.completed <= stats.total && stats.pending == stats.total - stats.completed
    {
      stats := StatsOf(tasks);
    }

    /** `exportTasks` up to the point where the bundle is serialised. */
    method ExportTasks(stamp: string) returns (data: ExportBundle)
      ensures data == ExportOf(tasks, stamp)
      ensures data.tasks == tasks && data.total == StatsOf(tasks).total
      ensures data.completed == StatsOf(tasks).completed
    {
      data := ExportOf(tasks, stamp);
    }
  }

}
