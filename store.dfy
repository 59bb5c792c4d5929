/**
 * The running app: the module-level `state` and `lastDeleted` of app.js as
 * the fields of one object, and every handler that changes them as a
 * method. Each method is proved to take the state exactly where the
 * corresponding function of module Todo says.
 *
 * The browser's answers are parameters: what `prompt` returned (`None` for
 * cancel), what `confirm` returned, and the string `uid()` produced.
 * `saveData` writes the whole document to storage and is not modelled.
 */
module Store {
  import opened Wrappers
  import opened Text
  import opened Splice
  import Todo

  class TodoApp {
    var lists: seq<Todo.TodoList>
    var activeListId: Option<string>
    var lastDeleted: Option<Todo.Undo>

    function Document(): Todo.Doc
      reads this
    {
      Todo.Doc(lists, activeListId)
    }

    function Model(): Todo.State
      reads this
    {
      Todo.State(Document(), lastDeleted)
    }

    /** `let state = loadData();` followed by `init()`; nothing is held for undo yet. */
    constructor (stored: Todo.Stored)
      ensures Model() == Todo.State(Todo.Repair(Todo.Load(stored)), None)
      ensures Todo.ActiveConsistent(Document())
    {
      if stored.Parsed? {
        lists, activeListId := stored.doc.lists, stored.doc.activeListId;
      } else {
        lists, activeListId := [], None;
      }
      lastDeleted := None;
      new;
      Init();
    }

    /** The repair step of `init`. */
    method Init()
      modifies this
      ensures Document() == Todo.Repair(old(Document()))
      ensures lastDeleted == old(lastDeleted)
    {
      if (activeListId.None? || Todo.FindList(lists, activeListId).None?) && |lists| > 0 {
        activeListId := Some(lists[0].id);
      }
    }

    /** `setActive(id)`. */
    method SetActive(id: string)
      modifies this
      ensures Document() == Todo.SetActive(old(Document()), id)
      ensures lastDeleted == old(lastDeleted)
    {
      activeListId := Some(id);
    }

    /** `onAddList()`: `name` is the input field's value, `id` the new `uid()`. */
    method AddList(name: string, id: string)
      modifies this
      ensures Document() == Todo.AddList(old(Document()), name, id)
      ensures lastDeleted == old(lastDeleted)
    {
      var trimmed := Trim(name);
      if trimmed == "" {
        return;
      }
      lists := lists + [Todo.TodoList(id, trimmed, [])];
      activeListId := Some(id);
    }

    /** The delete button of list `id` in the side bar. */
    method DeleteList(id: string, confirmed: bool)
      modifies this
      ensures Document() == Todo.DeleteList(old(Document()), id, confirmed)
      ensures lastDeleted == old(lastDeleted)
    {
      if !confirmed {
        return;
      }
      lists := Todo.WithoutList(lists, id);
      if activeListId == Some(id) {
        activeListId := if |lists| > 0 then Some(lists[0].id) else None;
      }
    }

    /** The button that deletes the active list. */
    method DeleteCurrentList(confirmed: bool)
      modifies this
      ensures Document() == Todo.DeleteCurrentList(old(Document()), confirmed)
      ensures lastDeleted == old(lastDeleted)
    {
      if activeListId.None? || activeListId.value == "" {
        return;
      }
      if !confirmed {
        return;
      }
      lists := Todo.WithoutList(lists, activeListId.value);
      activeListId := if |lists| > 0 then Some(lists[0].id) else None;
    }

    /** The rename button; `newName` is the answer to `prompt`. */
    method RenameList(newName: Option<string>)
      modifies this
      ensures Document() == Todo.RenameList(old(Document()), newName)
      ensures lastDeleted == old(lastDeleted)
    {
      var i := Todo.ActiveIndex(Document());
      if i.None? {
        return;
      }
      if newName.None? {
        return;
      }
      var trimmed := Trim(newName.value);
      lists := Todo.WithName(lists, i.value, if trimmed == "" then lists[i.value].name else trimmed);
    }

    /** `onAddTask()`: `text` is the input field's value, `id` the new `uid()`. */
    method AddTask(text: string, id: string)
      modifies this
      ensures Document() == Todo.AddTask(old(Document()), text, id)
      ensures lastDeleted == old(lastDeleted)
    {
      var d := Document();
      var i := Todo.ActiveIndex(d);
      if i.None? {
        return;
      }
      var trimmed := Trim(text);
      if trimmed == "" {
        return;
      }
      lists := Todo.WithTasks(d.lists, i.value, d.lists[i.value].tasks + [Todo.Task(id, trimmed, false)]);
      Todo.AddTaskAt(d, i.value, text, id);
    }

    /** `toggleTaskDone(taskId)`. */
    method ToggleTaskDone(taskId: string)
      modifies this
      ensures Document() == Todo.ToggleTask(old(Document()), taskId)
      ensures lastDeleted == old(lastDeleted)
    {
      var i := Todo.ActiveIndex(Document());
      if i.None? {
        return;
      }
      var list := lists[i.value];
      var k := Todo.IndexOfTask(list.tasks, taskId);
      if k.None? {
        return;
      }
      var t := list.tasks[k.value];
      lists := Todo.WithTasks(lists, i.value, list.tasks[k.value := t.(done := !t.done)]);
    }

    /** `editTask(taskId)`; `newText` is the answer to `prompt`. */
    method EditTask(taskId: string, newText: Option<string>)
      modifies this
      ensures Document() == Todo.EditTask(old(Document()), taskId, newText)
      ensures lastDeleted == old(lastDeleted)
    {
      var i := Todo.ActiveIndex(Document());
      if i.None? {
        return;
      }
      var list := lists[i.value];
      var k := Todo.IndexOfTask(list.tasks, taskId);
      if k.None? {
        return;
      }
      if newText.None? {
        return;
      }
      lists := Todo.WithTasks(lists, i.value, list.tasks[k.value := Todo.Retext(list.tasks[k.value], newText.value)]);
    }

    /** `deleteTask(taskId)`: the removed task replaces whatever the undo slot held. */
    method DeleteTask(taskId: string)
      modifies this
      ensures Model() == Todo.DeleteTask(old(Model()), taskId)
    {
      var i := Todo.ActiveIndex(Document());
      if i.None? {
        return;
      }
      var list := lists[i.value];
      var k := Todo.IndexOfTask(list.tasks, taskId);
      if k.None? {
        return;
      }
      var removed := list.tasks[k.value];
      lists := Todo.WithTasks(lists, i.value, RemoveAt(list.tasks, k.value));
      lastDeleted := Some(Todo.Undo(list.id, removed, k.value));
    }

    /** `reorderTasks(fromId, toId)`: the drop of one task onto another. */
    method ReorderTasks(fromId: string, toId: string)
      modifies this
      ensures Document() == Todo.ReorderTasks(old(Document()), fromId, toId)
      ensures lastDeleted == old(lastDeleted)
    {
      var i := Todo.ActiveIndex(Document());
      if i.None? {
        return;
      }
      var list := lists[i.value];
      var from := Todo.IndexOfTask(list.tasks, fromId);
      var to := Todo.IndexOfTask(list.tasks, toId);
      if from.None? || to.None? || from.value == to.value {
        return;
      }
      var moved := list.tasks[from.value];
      var rest := RemoveAt(list.tasks, from.value);
      lists := Todo.WithTasks(lists, i.value, InsertAt(rest, to.value, moved));
    }

    /** The drop of task `taskId` on the background of the task area. */
    method DropOnBackground(taskId: string)
      modifies this
      ensures Document() == Todo.MoveTaskToEnd(old(Document()), taskId)
      ensures lastDeleted == old(lastDeleted)
    {
      var i := Todo.ActiveIndex(Document());
      if i.None? {
        return;
      }
      var list := lists[i.value];
      var from := Todo.IndexOfTask(list.tasks, taskId);
      if from.None? {
        return;
      }
      var moved := list.tasks[from.value];
      lists := Todo.WithTasks(lists, i.value, RemoveAt(list.tasks, from.value) + [moved]);
    }

    /** The undo button of the toast. */
    method UndoDelete()
      modifies this
      ensures Model() == Todo.Restore(old(Model()))
    {
      if lastDeleted.None? {
        return;
      }
      var u := lastDeleted.value;
      var i := Todo.FindList(lists, Some(u.listId));
      if i.Some? {
        var list := lists[i.value];
        var at := Clamp(u.index, |list.tasks|);
        lists := Todo.WithTasks(lists, i.value, InsertAt(list.tasks, at, u.task));
      }
      lastDeleted := None;
    }

    /** The undo timer firing. */
    method Expire()
      modifies this
      ensures Model() == Todo.Expire(old(Model()))
    {
      lastDeleted := None;
    }
  }
}
