/** The module-level state of script.js, `tasks` and `currentFilter`, and
    the event handlers that change them. Every `saveToStorage()` appends
    the list it writes to `writes`; `render()` changes no state and is not
    modelled. */
module Store {
  import opened Text
  import opened Tasks
  import opened Reorder

  class TaskList {
    /** `tasks`, in display order for the "all" filter. */
    var tasks: seq<Task>
    /** `currentFilter`. */
    var filter: Filter
    /** Each list written under the tasks key, oldest first. */
    ghost var writes: seq<seq<Task>>

    /** Ids are unique and every title is non-empty and trimmed. */
    ghost predicate Valid()
      reads this
    {
      WellFormed(tasks)
    }

    /** The state before anything was loaded: no tasks, the "all" filter. */
    constructor ()
      ensures Valid()
      ensures tasks == [] && filter == All && writes == []
    {
      tasks := [];
      filter := All;
      writes := [];
    }

    /** `addTask(title)` with the fresh id it draws: a blank title returns
        early; otherwise the trimmed title is unshifted as an open task and
        the list is saved. */
    method Add(title: string, id: string)
      requires Valid() && id !in Ids(tasks)
      modifies this
      ensures Valid() && filter == old(filter)
      ensures tasks == AddTask(old(tasks), id, title)
      ensures writes == if IsBlank(title) then old(writes) else old(writes) + [tasks]
    {
      AddWellFormed(tasks, id, title);
      TrimEmptyIffBlank(title);
      var t := Trim(title);
      if t == [] {
        return;
      }
      tasks := [Task(id, t, false)] + tasks;
      writes := writes + [tasks];
    }

    /** The checkbox's change handler: the task takes the checkbox's state,
        and the list is saved. */
    method Toggle(id: string, checked: bool)
      requires Valid()
      modifies this
      ensures Valid() && filter == old(filter)
      ensures tasks == SetCompleted(old(tasks), id, checked)
      ensures writes == old(writes) + [tasks]
    {
      SetCompletedWellFormed(tasks, id, checked);
      tasks := SetCompleted(tasks, id, checked);
      writes := writes + [tasks];
    }

    /** The delete button: keep the tasks with another id, then save. */
    method Delete(id: string)
      requires Valid()
      modifies this
      ensures Valid() && filter == old(filter)
      ensures tasks == DeleteTask(old(tasks), id)
      ensures writes == old(writes) + [tasks]
    {
      KeepWellFormed(tasks, (t: Task) => t.id != id);
      tasks := DeleteTask(tasks, id);
      writes := writes + [tasks];
    }

    /** `finish(commit)` of the inline editor of task `id`, with `value` the
        text of the edit field: `finish(true)` commits, `finish(false)`
        changes nothing; only a commit saves. Which calls the editor's
        key and blur listeners make is `EditAsWritten` in `Tasks`. */
    method Finish(id: string, value: string, commit: bool)
      requires Valid()
      modifies this
      ensures Valid() && filter == old(filter)
      ensures tasks == FinishEdit(old(tasks), id, value, commit)
      ensures writes == if commit then old(writes) + [tasks] else old(writes)
    {
      FinishEditWellFormed(tasks, id, value, commit);
      if commit {
        TrimEmptyIffBlank(value);
        var v := Trim(value);
        if v != [] {
          tasks := UpdateTask(tasks, id, (t: Task) => t.(title := v));
        } else {
          tasks := DeleteTask(tasks, id);
        }
        writes := writes + [tasks];
      }
    }

    /** The end of an inline edit as intended: Escape cancels without a
        save, and Enter or a loss of focus commits once through `Finish`. */
    method EndEdit(id: string, value: string, e: EditEnd)
      requires Valid()
      modifies this
      ensures Valid() && filter == old(filter)
      ensures tasks == EditOnce(old(tasks), id, value, e)
      ensures e == EscapeKey ==> tasks == old(tasks) && writes == old(writes)
      ensures e != EscapeKey ==> writes == old(writes) + [tasks]
    {
      Finish(id, value, e != EscapeKey);
    }

    /** The clear-completed button: nothing happens, not even a save, when
        no task is completed; otherwise only the open tasks stay. */
    method Clear()
      requires Valid()
      modifies this
      ensures Valid() && filter == old(filter)
      ensures tasks == ClearCompleted(old(tasks))
      ensures writes == if AnyCompleted(old(tasks)) then old(writes) + [tasks] else old(writes)
    {
      var hadCompleted := exists i :: 0 <= i < |tasks| && tasks[i].completed;
      if !hadCompleted {
        return;
      }
      KeepWellFormed(tasks, IsOpen);
      tasks := Keep(tasks, IsOpen);
      writes := writes + [tasks];
    }

    /** `syncTasksOrderFromDOM`, with `ids` the ids of the list items in
        their on-screen order: outside the "all" filter it returns at once;
        otherwise the list is stably sorted by position in `ids` and saved. */
    method SyncOrder(ids: seq<string>)
      requires Valid()
      modifies this
      ensures Valid() && filter == old(filter)
      ensures tasks == if old(filter) == All then SortByIds(old(tasks), ids) else old(tasks)
      ensures writes == if old(filter) == All then old(writes) + [tasks] else old(writes)
    {
      if filter != All {
        return;
      }
      SortWellFormed(tasks, ids);
      tasks := SortByIds(tasks, ids);
      writes := writes + [tasks];
    }

    /** `setFilter`: only the filter changes; nothing is saved. */
    method SetFilter(f: Filter)
      requires Valid()
      modifies this
      ensures Valid()
      ensures filter == f && tasks == old(tasks) && writes == old(writes)
    {
      filter := f;
    }
  }
}
