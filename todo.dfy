/**
 * The state of the to-do app as values: the document `{lists,
 * activeListId}` saved to local storage, and the single-slot record of the
 * last deleted task. Each handler of app.js that changes the document is a
 * function from the old state to the new one; the lemmas state what the
 * handlers promise.
 */
module Todo {
  import opened Wrappers
  import opened Text
  import opened Splice

  datatype Task = Task(id: string, text: string, done: bool)

  datatype TodoList = TodoList(id: string, name: string, tasks: seq<Task>)

  /** The persisted root. A `null` active id is `None`. */
  datatype Doc = Doc(lists: seq<TodoList>, activeListId: Option<string>)

  /** `lastDeleted` without its timer handle: which list, which task, where it was. */
  datatype Undo = Undo(listId: string, task: Task, index: int)

  datatype State = State(doc: Doc, lastDeleted: Option<Undo>)

  /**
   * What `loadData` finds under the storage key: nothing (or an empty
   * string), something that does not parse or has no `lists` array, or a
   * document.
   */
  datatype Stored = Absent | Unusable | Parsed(doc: Doc)

  const EmptyDoc := Doc([], None)

  // ----- lookups (`Array.prototype.find` and `findIndex`) -----

  /** Index of the first list whose id is `id`. */
  function IndexOfList(lists: seq<TodoList>, id: string): (r: Option<nat>)
    ensures r.Some? ==> r.value < |lists| && lists[r.value].id == id
    ensures r.Some? ==> forall j :: 0 <= j < r.value ==> lists[j].id != id
    ensures r.None? <==> forall j :: 0 <= j < |lists| ==> lists[j].id != id
  {
    if lists == [] then None
    else if lists[0].id == id then Some(0)
    else match IndexOfList(lists[1..], id)
      case None => None
      case Some(k) => Some(k + 1)
  }

  /** Index of the first task whose id is `id`. */
  function IndexOfTask(tasks: seq<Task>, id: string): (r: Option<nat>)
    ensures r.Some? ==> r.value < |tasks| && tasks[r.value].id == id
    ensures r.Some? ==> forall j :: 0 <= j < r.value ==> tasks[j].id != id
    ensures r.None? <==> forall j :: 0 <= j < |tasks| ==> tasks[j].id != id
  {
    if tasks == [] then None
    else if tasks[0].id == id then Some(0)
    else match IndexOfTask(tasks[1..], id)
      case None => None
      case Some(k) => Some(k + 1)
  }

  /** `findList(id)`; a `null` id matches no list. */
  function FindList(lists: seq<TodoList>, id: Option<string>): (r: Option<nat>)
    ensures r.Some? ==> id.Some? && r.value < |lists| && lists[r.value].id == id.value
    ensures r.Some? ==> forall j :: 0 <= j < r.value ==> lists[j].id != id.value
    ensures r.None? <==> id.None? || forall j :: 0 <= j < |lists| ==> lists[j].id != id.value
  {
    if id.None? then None else IndexOfList(lists, id.value)
  }

  /** The list task operations act on: the first one with the active id. */
  function ActiveIndex(d: Doc): (r: Option<nat>)
    ensures r.Some? ==> d.activeListId.Some? && r.value < |d.lists| && d.lists[r.value].id == d.activeListId.value
  {
    FindList(d.lists, d.activeListId)
  }

  /** The active list is the first with the active id, and there is none exactly when no list carries that id. */
  lemma ActiveIndexIsFirst(d: Doc)
    ensures ActiveIndex(d).Some? ==> forall j :: 0 <= j < ActiveIndex(d).value ==> d.lists[j].id != d.activeListId.value
    ensures ActiveIndex(d).None? <==> d.activeListId.None? || !HasList(d.lists, d.activeListId.value)
  {
  }

  function ActiveTasks(d: Doc): seq<Task> {
    match ActiveIndex(d)
    case None => []
    case Some(i) => d.lists[i].tasks
  }

  predicate HasList(lists: seq<TodoList>, id: string) {
    exists j :: 0 <= j < |lists| && lists[j].id == id
  }

  /**
   * The active id names an existing list whenever there is a list; the
   * rendering of the active list relies on it.
   */
  predicate ActiveConsistent(d: Doc) {
    |d.lists| > 0 ==> d.activeListId.Some? && HasList(d.lists, d.activeListId.value)
  }

  /** The stricter rule: no active id exactly when there are no lists. */
  predicate StrictlyConsistent(d: Doc) {
    ActiveConsistent(d) && (d.lists == [] <==> d.activeListId.None?)
  }

  /** The id of the first list, or `null` when there is none. */
  function FirstId(lists: seq<TodoList>): (r: Option<string>)
    ensures r.None? <==> lists == []
    ensures r.Some? ==> HasList(lists, r.value)
    ensures lists != [] ==> r == Some(lists[0].id)
  {
    if lists == [] then None else Some(lists[0].id)
  }

  /** `lists.filter(l => l.id !== id)`. */
  function WithoutList(lists: seq<TodoList>, id: string): (r: seq<TodoList>)
    ensures |r| <= |lists|
    ensures forall j :: 0 <= j < |r| ==> r[j].id != id
    ensures forall l :: l in r <==> l in lists && l.id != id
  {
    if lists == [] then []
    else if lists[0].id == id then WithoutList(lists[1..], id)
    else [lists[0]] + WithoutList(lists[1..], id)
  }

  /** The filter works list by list, so it keeps the others in their order. */
  lemma {:induction false} WithoutListAppend(a: seq<TodoList>, b: seq<TodoList>, id: string)
    ensures WithoutList(a + b, id) == WithoutList(a, id) + WithoutList(b, id)
  {
    if a == [] {
      assert a + b == b;
    } else {
      assert (a + b)[1..] == a[1..] + b;
      WithoutListAppend(a[1..], b, id);
    }
  }

  /** With no list of that id, the filter keeps everything. */
  lemma {:induction false} WithoutListAbsent(lists: seq<TodoList>, id: string)
    requires !HasList(lists, id)
    ensures WithoutList(lists, id) == lists
  {
    if lists != [] {
      assert lists[0].id != id;
      assert !HasList(lists[1..], id) by {
        forall j | 0 <= j < |lists[1..]| ensures lists[1..][j].id != id {
          assert lists[1..][j] == lists[j + 1];
        }
      }
      WithoutListAbsent(lists[1..], id);
    }
  }

  /** A list whose id survives the filter is still there. */
  lemma WithoutListKeeps(lists: seq<TodoList>, id: string, other: string)
    requires other != id && HasList(lists, other)
    ensures HasList(WithoutList(lists, id), other)
  {
    var j :| 0 <= j < |lists| && lists[j].id == other;
    assert lists[j] in WithoutList(lists, id);
  }

  /** `lists` with the tasks of list `i` replaced. */
  function WithTasks(lists: seq<TodoList>, i: nat, tasks: seq<Task>): (r: seq<TodoList>)
    requires i < |lists|
    ensures |r| == |lists|
    ensures forall j :: 0 <= j < |r| ==> r[j].id == lists[j].id && r[j].name == lists[j].name
    ensures forall j :: 0 <= j < |r| && j != i ==> r[j] == lists[j]
    ensures r[i].tasks == tasks
  {
    lists[i := lists[i].(tasks := tasks)]
  }

  /**
   * `r` has the same lists as `d`, by id and in the same order, and the
   * same active id; only names and tasks may differ.
   */
  predicate SameOutline(d: Doc, r: Doc) {
    && r.activeListId == d.activeListId
    && |r.lists| == |d.lists|
    && forall j :: 0 <= j < |d.lists| ==> r.lists[j].id == d.lists[j].id
  }

  /** `lists` with the name of list `i` replaced. */
  function WithName(lists: seq<TodoList>, i: nat, name: string): (r: seq<TodoList>)
    requires i < |lists|
    ensures |r| == |lists|
    ensures forall j :: 0 <= j < |r| ==> r[j].id == lists[j].id && r[j].tasks == lists[j].tasks
    ensures forall j :: 0 <= j < |r| && j != i ==> r[j] == lists[j]
    ensures r[i].name == name
  {
    lists[i := lists[i].(name := name)]
  }

  /**
   * `d` and `r` differ at most in the tasks of the active list, which
   * become `tasks`.
   */
  predicate ActiveTasksBecome(d: Doc, r: Doc, tasks: seq<Task>) {
    && SameOutline(d, r)
    && (forall j :: 0 <= j < |d.lists| ==> r.lists[j].name == d.lists[j].name)
    && (forall j :: 0 <= j < |d.lists| && Some(j) != ActiveIndex(d) ==> r.lists[j] == d.lists[j])
    && ActiveTasks(r) == tasks
  }

  /** The first list with id `id` is at `k`. */
  lemma IndexOfListIs(lists: seq<TodoList>, id: string, k: nat)
    requires k < |lists| && lists[k].id == id
    requires forall j :: 0 <= j < k ==> lists[j].id != id
    ensures IndexOfList(lists, id) == Some(k)
  {
  }

  /** The first task with id `id` is at `k`. */
  lemma IndexOfTaskIs(tasks: seq<Task>, id: string, k: nat)
    requires k < |tasks| && tasks[k].id == id
    requires forall j :: 0 <= j < k ==> tasks[j].id != id
    ensures IndexOfTask(tasks, id) == Some(k)
  {
  }

  /** Task edits keep every list's id, so the active list is the same one afterwards. */
  lemma IndexOfListSameIds(a: seq<TodoList>, b: seq<TodoList>, id: string)
    requires |a| == |b|
    requires forall j :: 0 <= j < |a| ==> a[j].id == b[j].id
    ensures IndexOfList(a, id) == IndexOfList(b, id)
  {
    match IndexOfList(a, id)
    case None =>
    case Some(k) => IndexOfListIs(b, id, k);
  }

  /** Field updates keep every task's id, so lookups by id find the same place. */
  lemma IndexOfTaskSameIds(a: seq<Task>, b: seq<Task>, id: string)
    requires |a| == |b|
    requires forall j :: 0 <= j < |a| ==> a[j].id == b[j].id
    ensures IndexOfTask(a, id) == IndexOfTask(b, id)
  {
    match IndexOfTask(a, id)
    case None =>
    case Some(k) => IndexOfTaskIs(b, id, k);
  }

  lemma {:induction false} WithTasksActive(d: Doc, i: nat, tasks: seq<Task>)
    requires ActiveIndex(d) == Some(i)
    ensures ActiveTasksBecome(d, d.(lists := WithTasks(d.lists, i, tasks)), tasks)
  {
    var r := d.(lists := WithTasks(d.lists, i, tasks));
    IndexOfListSameIds(d.lists, r.lists, d.activeListId.value);
  }

  // ----- startup -----

  /** `loadData` and line 34 of `init`: anything but a parsed document gives the empty document. */
  function Load(s: Stored): (r: Doc)
    ensures s.Parsed? ==> r == s.doc
    ensures !s.Parsed? ==> r == EmptyDoc
  {
    if s.Parsed? then s.doc else EmptyDoc
  }

  /** The active-list repair of `init`: a missing or dangling active id falls back to the first list. */
  function Repair(d: Doc): (r: Doc)
    ensures ActiveConsistent(r)
    ensures r.lists == d.lists
    ensures ActiveConsistent(d) ==> r == d
    ensures !ActiveConsistent(d) ==> r.activeListId == Some(d.lists[0].id)
  {
    if (d.activeListId.None? || FindList(d.lists, d.activeListId).None?) && |d.lists| > 0
    then d.(activeListId := Some(d.lists[0].id))
    else d
  }

  // ----- list operations -----

  /** `setActive(id)`: trusts its caller, the id may name no list. */
  function SetActive(d: Doc, id: string): (r: Doc)
    ensures r.lists == d.lists && r.activeListId == Some(id)
    ensures ActiveConsistent(r) <==> d.lists == [] || HasList(d.lists, id)
  {
    d.(activeListId := Some(id))
  }

  /** `onAddList`: `name` is the field's text, `id` the fresh `uid()`. */
  function AddList(d: Doc, name: string, id: string): (r: Doc)
    ensures AllSpace(name) ==> r == d
    ensures !AllSpace(name) ==> r.lists == d.lists + [TodoList(id, Trim(name), [])]
    ensures !AllSpace(name) ==> r.activeListId == Some(id)
    ensures ActiveConsistent(d) ==> ActiveConsistent(r)
  {
    var trimmed := Trim(name);
    if trimmed == "" then d
    else
      var lists := d.lists + [TodoList(id, trimmed, [])];
      assert lists[|d.lists|].id == id;
      Doc(lists, Some(id))
  }

  /** The delete button of a list in the side bar (`onListsClick`), after `confirm`. */
  function DeleteList(d: Doc, id: string, confirmed: bool): (r: Doc)
    ensures !confirmed ==> r == d
    ensures confirmed ==> r.lists == WithoutList(d.lists, id)
    ensures confirmed && d.activeListId == Some(id) ==> r.activeListId == FirstId(r.lists)
    ensures d.activeListId != Some(id) ==> r.activeListId == d.activeListId
    ensures ActiveConsistent(d) ==> ActiveConsistent(r)
  {
    if !confirmed then d
    else
      var rest := WithoutList(d.lists, id);
      var r := Doc(rest, if d.activeListId == Some(id) then FirstId(rest) else d.activeListId);
      assert ActiveConsistent(d) && d.activeListId != Some(id) && |d.lists| > 0 ==>
             HasList(rest, d.activeListId.value) by {
        if ActiveConsistent(d) && d.activeListId != Some(id) && |d.lists| > 0 {
          WithoutListKeeps(d.lists, id, d.activeListId.value);
        }
      }
      r
  }

  /** Whether JavaScript reads the active id as true in `if (!state.activeListId)`. */
  predicate ActiveTruthy(d: Doc) {
    d.activeListId.Some? && d.activeListId.value != ""
  }

  /** The "delete current list" button, after `confirm`. */
  function DeleteCurrentList(d: Doc, confirmed: bool): (r: Doc)
    ensures !(confirmed && ActiveTruthy(d)) ==> r == d
    ensures confirmed && ActiveTruthy(d) ==>
      r.lists == WithoutList(d.lists, d.activeListId.value) && r.activeListId == FirstId(r.lists)
    ensures confirmed && ActiveTruthy(d) ==> StrictlyConsistent(r)
    ensures ActiveConsistent(d) ==> ActiveConsistent(r)
  {
    if !ActiveTruthy(d) || !confirmed then d
    else
      var rest := WithoutList(d.lists, d.activeListId.value);
      Doc(rest, FirstId(rest))
  }

  /** The rename button: `newName` is what `prompt` returned, `None` when cancelled. */
  function RenameList(d: Doc, newName: Option<string>): (r: Doc)
    ensures SameOutline(d, r)
    ensures forall j :: 0 <= j < |d.lists| ==> r.lists[j].tasks == d.lists[j].tasks
    ensures forall j :: 0 <= j < |d.lists| && Some(j) != ActiveIndex(d) ==> r.lists[j] == d.lists[j]
    ensures ActiveIndex(d).None? || newName.None? ==> r == d
    ensures ActiveIndex(d).Some? && newName.Some? ==>
      var i := ActiveIndex(d).value;
      r.lists[i].name == if AllSpace(newName.value) then d.lists[i].name else Trim(newName.value)
  {
    match ActiveIndex(d)
    case None => d
    case Some(i) =>
      if newName.None? then d
      else
        var trimmed := Trim(newName.value);
        d.(lists := WithName(d.lists, i, if trimmed == "" then d.lists[i].name else trimmed))
  }

  // ----- task operations, all on the active list -----

  /** `onAddTask`: `text` is the field's text, `id` the fresh `uid()`. */
  function AddTask(d: Doc, text: string, id: string): (r: Doc)
    ensures SameOutline(d, r)
    ensures ActiveIndex(d).None? || AllSpace(text) ==> r == d
    ensures ActiveIndex(d).Some? && !AllSpace(text) ==>
      ActiveTasksBecome(d, r, ActiveTasks(d) + [Task(id, Trim(text), false)])
  {
    match ActiveIndex(d)
    case None => d
    case Some(i) =>
      var trimmed := Trim(text);
      if trimmed == "" then d
      else
        var tasks := d.lists[i].tasks + [Task(id, trimmed, false)];
        WithTasksActive(d, i, tasks);
        d.(lists := WithTasks(d.lists, i, tasks))
  }

  /** Where `onAddTask` finds the active list and a non-blank text, the new task is appended to it. */
  lemma AddTaskAt(d: Doc, i: nat, text: string, id: string)
    requires ActiveIndex(d) == Some(i) && Trim(text) != ""
    ensures AddTask(d, text, id) == d.(lists := WithTasks(d.lists, i, d.lists[i].tasks + [Task(id, Trim(text), false)]))
  {
  }

  /** `toggleTaskDone`: flips `done` of the first task with that id. */
  function ToggleTask(d: Doc, taskId: string): (r: Doc)
    ensures SameOutline(d, r)
    ensures IndexOfTask(ActiveTasks(d), taskId).None? ==> r == d
    ensures IndexOfTask(ActiveTasks(d), taskId).Some? ==>
      var k := IndexOfTask(ActiveTasks(d), taskId).value;
      var t := ActiveTasks(d)[k];
      ActiveTasksBecome(d, r, ActiveTasks(d)[k := t.(done := !t.done)])
  {
    match ActiveIndex(d)
    case None => d
    case Some(i) =>
      var tasks := d.lists[i].tasks;
      match IndexOfTask(tasks, taskId)
      case None => d
      case Some(k) =>
        var updated := tasks[k := tasks[k].(done := !tasks[k].done)];
        WithTasksActive(d, i, updated);
        d.(lists := WithTasks(d.lists, i, updated))
  }

  /** The task after an edit answered with `answer`: the trimmed answer, or the old text when that is empty. */
  function Retext(t: Task, answer: string): (r: Task)
    ensures r.id == t.id && r.done == t.done
    ensures r.text == if AllSpace(answer) then t.text else Trim(answer)
  {
    var trimmed := Trim(answer);
    t.(text := if trimmed == "" then t.text else trimmed)
  }

  /** `editTask`: `newText` is what `prompt` returned, `None` when cancelled. */
  function EditTask(d: Doc, taskId: string, newText: Option<string>): (r: Doc)
    ensures SameOutline(d, r)
    ensures IndexOfTask(ActiveTasks(d), taskId).None? || newText.None? ==> r == d
    ensures IndexOfTask(ActiveTasks(d), taskId).Some? && newText.Some? ==>
      var k := IndexOfTask(ActiveTasks(d), taskId).value;
      var t := ActiveTasks(d)[k];
      ActiveTasksBecome(d, r, ActiveTasks(d)[k := Retext(t, newText.value)])
  {
    match ActiveIndex(d)
    case None => d
    case Some(i) =>
      var tasks := d.lists[i].tasks;
      match IndexOfTask(tasks, taskId)
      case None => d
      case Some(k) =>
        if newText.None? then d
        else
          var updated := tasks[k := Retext(tasks[k], newText.value)];
          WithTasksActive(d, i, updated);
          d.(lists := WithTasks(d.lists, i, updated))
  }

  /** `reorderTasks(fromId, toId)`: a drop onto another task. */
  function ReorderTasks(d: Doc, fromId: string, toId: string): (r: Doc)
    ensures SameOutline(d, r)
    ensures
      var ts := ActiveTasks(d);
      var from, to := IndexOfTask(ts, fromId), IndexOfTask(ts, toId);
      if from.None? || to.None? || from == to then r == d
      else ActiveTasksBecome(d, r, Move(ts, from.value, to.value))
  {
    match ActiveIndex(d)
    case None => d
    case Some(i) =>
      var tasks := d.lists[i].tasks;
      var from, to := IndexOfTask(tasks, fromId), IndexOfTask(tasks, toId);
      if from.None? || to.None? || from.value == to.value then d
      else
        var moved := Move(tasks, from.value, to.value);
        WithTasksActive(d, i, moved);
        d.(lists := WithTasks(d.lists, i, moved))
  }

  /** A drop on the background of the task area: the dragged task goes last. */
  function MoveTaskToEnd(d: Doc, taskId: string): (r: Doc)
    ensures SameOutline(d, r)
    ensures
      var ts := ActiveTasks(d);
      var from := IndexOfTask(ts, taskId);
      if from.None? then r == d else ActiveTasksBecome(d, r, MoveToEnd(ts, from.value))
  {
    match ActiveIndex(d)
    case None => d
    case Some(i) =>
      var tasks := d.lists[i].tasks;
      match IndexOfTask(tasks, taskId)
      case None => d
      case Some(k) =>
        var moved := MoveToEnd(tasks, k);
        WithTasksActive(d, i, moved);
        d.(lists := WithTasks(d.lists, i, moved))
  }

  // ----- undo slot -----

  /**
   * `deleteTask`: the task leaves the active list and becomes the one
   * record of the undo slot, replacing whatever was there.
   */
  function DeleteTask(st: State, taskId: string): (r: State)
    ensures SameOutline(st.doc, r.doc)
    ensures IndexOfTask(ActiveTasks(st.doc), taskId).None? ==> r == st
    ensures IndexOfTask(ActiveTasks(st.doc), taskId).Some? ==>
      var ts := ActiveTasks(st.doc);
      var k := IndexOfTask(ts, taskId).value;
      && ActiveTasksBecome(st.doc, r.doc, RemoveAt(ts, k))
      && r.lastDeleted == Some(Undo(st.doc.activeListId.value, ts[k], k))
  {
    match ActiveIndex(st.doc)
    case None => st
    case Some(i) =>
      var list := st.doc.lists[i];
      match IndexOfTask(list.tasks, taskId)
      case None => st
      case Some(k) =>
        var rest := RemoveAt(list.tasks, k);
        WithTasksActive(st.doc, i, rest);
        State(st.doc.(lists := WithTasks(st.doc.lists, i, rest)), Some(Undo(list.id, list.tasks[k], k)))
  }

  /**
   * The undo button: the held task goes back into its list, at its old
   * index clamped to the list's current length; the slot is emptied in
   * every case.
   */
  function Restore(st: State): (r: State)
    ensures SameOutline(st.doc, r.doc)
    ensures r.lastDeleted.None?
    ensures st.lastDeleted.None? ==> r == st
    ensures st.lastDeleted.Some? && IndexOfList(st.doc.lists, st.lastDeleted.value.listId).None? ==>
      r.doc == st.doc
    ensures st.lastDeleted.Some? && IndexOfList(st.doc.lists, st.lastDeleted.value.listId).Some? ==>
      var u := st.lastDeleted.value;
      var i := IndexOfList(st.doc.lists, u.listId).value;
      var ts := st.doc.lists[i].tasks;
      r.doc == st.doc.(lists := WithTasks(st.doc.lists, i, InsertAt(ts, Clamp(u.index, |ts|), u.task)))
  {
    match st.lastDeleted
    case None => st
    case Some(u) =>
      match FindList(st.doc.lists, Some(u.listId))
      case None => State(st.doc, None)
      case Some(i) =>
        var tasks := st.doc.lists[i].tasks;
        State(st.doc.(lists := WithTasks(st.doc.lists, i, InsertAt(tasks, Clamp(u.index, |tasks|), u.task))), None)
  }

  /** The undo timer firing: the record is dropped, the document stays. */
  function Expire(st: State): (r: State)
    ensures r.doc == st.doc && r.lastDeleted.None?
  {
    st.(lastDeleted := None)
  }

  // ----- properties -----

  /** Delete then undo, with nothing in between, gives back the document exactly. */
  lemma {:induction false} DeleteThenRestore(st: State, taskId: string)
    requires IndexOfTask(ActiveTasks(st.doc), taskId).Some?
    ensures Restore(DeleteTask(st, taskId)) == State(st.doc, None)
  {
    var d := st.doc;
    var i := ActiveIndex(d).value;
    var list := d.lists[i];
    var k := IndexOfTask(list.tasks, taskId).value;
    var rest := RemoveAt(list.tasks, k);
    var mid := DeleteTask(st, taskId);
    assert mid.doc.lists == WithTasks(d.lists, i, rest);
    assert mid.lastDeleted == Some(Undo(list.id, list.tasks[k], k));
    IndexOfListSameIds(d.lists, mid.doc.lists, list.id);
    assert IndexOfList(mid.doc.lists, list.id) == Some(i);
    assert Clamp(k, |rest|) == k;
    InsertRemoved(list.tasks, k);
    assert WithTasks(mid.doc.lists, i, list.tasks) == d.lists;
  }

  /** Only the latest deletion is kept: the record before it plays no part. */
  lemma DeleteForgetsPrevious(st: State, taskId: string)
    requires IndexOfTask(ActiveTasks(st.doc), taskId).Some?
    ensures DeleteTask(st, taskId) == DeleteTask(st.(lastDeleted := None), taskId)
  {
  }

  /** Undo always inserts within bounds, whatever happened to the list since. */
  lemma RestoreInBounds(st: State)
    requires st.lastDeleted.Some?
    requires IndexOfList(st.doc.lists, st.lastDeleted.value.listId).Some?
    ensures
      var i := IndexOfList(st.doc.lists, st.lastDeleted.value.listId).value;
      var ts := st.doc.lists[i].tasks;
      var at := Clamp(st.lastDeleted.value.index, |ts|);
      && at <= |ts|
      && Restore(st).doc.lists[i].tasks == InsertAt(ts, at, st.lastDeleted.value.task)
      && |Restore(st).doc.lists[i].tasks| == |ts| + 1
  {
  }

  /** A second undo does nothing. */
  lemma RestoreTwice(st: State)
    ensures Restore(Restore(st)) == Restore(st)
  {
  }

  /** The document with task `k` of list `i` replaced by `t`. */
  function WithTask(d: Doc, i: nat, k: nat, t: Task): Doc
    requires i < |d.lists| && k < |d.lists[i].tasks|
  {
    d.(lists := WithTasks(d.lists, i, d.lists[i].tasks[k := t]))
  }

  /**
   * Replacing the task found by `taskId` with one of the same id: the same
   * list is active and the same place is found again afterwards.
   */
  lemma WithTaskFindsSame(d: Doc, i: nat, k: nat, t: Task, taskId: string)
    requires ActiveIndex(d) == Some(i)
    requires IndexOfTask(d.lists[i].tasks, taskId) == Some(k)
    requires t.id == taskId
    ensures ActiveIndex(WithTask(d, i, k, t)) == Some(i)
    ensures WithTask(d, i, k, t).lists[i].tasks == d.lists[i].tasks[k := t]
    ensures IndexOfTask(WithTask(d, i, k, t).lists[i].tasks, taskId) == Some(k)
    ensures WithTask(WithTask(d, i, k, t), i, k, d.lists[i].tasks[k]) == d
  {
    var tasks := d.lists[i].tasks;
    var once := WithTask(d, i, k, t);
    WithTasksActive(d, i, tasks[k := t]);
    IndexOfTaskSameIds(tasks, tasks[k := t], taskId);
    assert tasks[k := t][k := tasks[k]] == tasks;
    assert d.lists[i := d.lists[i].(tasks := tasks)] == d.lists;
  }

  /** Putting back the task that is already there changes nothing. */
  lemma WithTaskKeeps(d: Doc, i: nat, k: nat)
    requires i < |d.lists| && k < |d.lists[i].tasks|
    ensures WithTask(d, i, k, d.lists[i].tasks[k]) == d
  {
    assert d.lists[i].tasks[k := d.lists[i].tasks[k]] == d.lists[i].tasks;
    assert d.lists[i := d.lists[i].(tasks := d.lists[i].tasks)] == d.lists;
  }

  /** Toggling the same task twice changes nothing. */
  lemma {:induction false} ToggleTwice(d: Doc, taskId: string)
    ensures ToggleTask(ToggleTask(d, taskId), taskId) == d
  {
    match ActiveIndex(d)
    case None =>
    case Some(i) =>
      var tasks := d.lists[i].tasks;
      match IndexOfTask(tasks, taskId)
      case None =>
      case Some(k) =>
        var t := tasks[k].(done := !tasks[k].done);
        var once := WithTask(d, i, k, t);
        assert ToggleTask(d, taskId) == once;
        WithTaskFindsSame(d, i, k, t, taskId);
        assert ToggleTask(once, taskId) == WithTask(once, i, k, tasks[k]);
  }

  /** Where `editTask` finds the task, an answer replaces it by its retexted copy. */
  lemma EditAt(d: Doc, i: nat, k: nat, taskId: string, answer: string)
    requires ActiveIndex(d) == Some(i)
    requires IndexOfTask(d.lists[i].tasks, taskId) == Some(k)
    ensures EditTask(d, taskId, Some(answer)) == WithTask(d, i, k, Retext(d.lists[i].tasks[k], answer))
  {
  }

  /** Editing twice with the same answer is editing once. */
  lemma {:induction false} EditIdempotent(d: Doc, taskId: string, newText: Option<string>)
    ensures EditTask(EditTask(d, taskId, newText), taskId, newText) == EditTask(d, taskId, newText)
  {
    match ActiveIndex(d)
    case None =>
    case Some(i) =>
      var tasks := d.lists[i].tasks;
      match IndexOfTask(tasks, taskId)
      case None =>
      case Some(k) =>
        if newText.Some? {
          var t := Retext(tasks[k], newText.value);
          var once := WithTask(d, i, k, t);
          EditAt(d, i, k, taskId, newText.value);
          WithTaskFindsSame(d, i, k, t, taskId);
          EditAt(once, i, k, taskId, newText.value);
          assert once.lists[i].tasks[k] == t;
          assert Retext(t, newText.value) == t;
          WithTaskKeeps(once, i, k);
        }
  }

  /** Renaming twice with the same answer is renaming once. */
  lemma {:induction false} RenameIdempotent(d: Doc, newName: Option<string>)
    ensures RenameList(RenameList(d, newName), newName) == RenameList(d, newName)
  {
    if ActiveIndex(d).Some? && newName.Some? {
      var once := RenameList(d, newName);
      IndexOfListSameIds(d.lists, once.lists, d.activeListId.value);
      var i := ActiveIndex(d).value;
      var trimmed := Trim(newName.value);
      assert once.lists[i := once.lists[i].(name := if trimmed == "" then once.lists[i].name else trimmed)] == once.lists;
    }
  }

  /** Deleting the list just added gives back the lists as they were. */
  lemma AddThenDeleteList(d: Doc, name: string, id: string)
    requires !HasList(d.lists, id)
    ensures DeleteList(AddList(d, name, id), id, true).lists == d.lists
  {
    WithoutListAbsent(d.lists, id);
    if !AllSpace(name) {
      WithoutListAppend(d.lists, [TodoList(id, Trim(name), [])], id);
    }
  }

  /** With a fresh id, the added list is the active one, and it is empty. */
  lemma AddListMakesItActive(d: Doc, name: string, id: string)
    requires !HasList(d.lists, id) && !AllSpace(name)
    ensures
      var r := AddList(d, name, id);
      ActiveIndex(r) == Some(|d.lists|) && ActiveTasks(r) == [] && r.lists[|d.lists|].name == Trim(name)
  {
    var r := AddList(d, name, id);
    assert r.lists == d.lists + [TodoList(id, Trim(name), [])];
    assert forall j :: 0 <= j < |d.lists| ==> r.lists[j].id != id;
    IndexOfListIs(r.lists, id, |d.lists|);
    assert ActiveIndex(r) == Some(|d.lists|);
  }

  /** After the reorder of a drop onto another task, the task list is a rearrangement. */
  lemma ReorderPermutes(d: Doc, fromId: string, toId: string)
    ensures
      var ts := ActiveTasks(d);
      var from, to := IndexOfTask(ts, fromId), IndexOfTask(ts, toId);
      var ts' := ActiveTasks(ReorderTasks(d, fromId, toId));
      && multiset(ts') == multiset(ts)
      && |ts'| == |ts|
      && (from.Some? && to.Some? ==> ts'[to.value] == ts[from.value])
  {
    var ts := ActiveTasks(d);
    var from, to := IndexOfTask(ts, fromId), IndexOfTask(ts, toId);
    if from.Some? && to.Some? && from != to {
      MoveIsPermutation(ts, from.value, to.value);
    }
  }

  /** After a drop on the background, the dragged task is last and the others keep their order. */
  lemma MoveToEndPermutes(d: Doc, taskId: string)
    requires IndexOfTask(ActiveTasks(d), taskId).Some?
    ensures
      var ts := ActiveTasks(d);
      var k := IndexOfTask(ts, taskId).value;
      var ts' := ActiveTasks(MoveTaskToEnd(d, taskId));
      && multiset(ts') == multiset(ts)
      && |ts'| == |ts|
      && ts'[|ts'| - 1] == ts[k]
      && ts'[..|ts'| - 1] == RemoveAt(ts, k)
  {
    var ts := ActiveTasks(d);
    MoveToEndIsPermutation(ts, IndexOfTask(ts, taskId).value);
  }

  /**
   * Renaming and every task operation keep the outline, so they keep the
   * active list valid.
   */
  lemma OutlineKeepsConsistent(d: Doc, r: Doc)
    requires SameOutline(d, r)
    ensures ActiveConsistent(d) ==> ActiveConsistent(r)
  {
    if ActiveConsistent(d) && |r.lists| > 0 {
      var j :| 0 <= j < |d.lists| && d.lists[j].id == d.activeListId.value;
      assert r.lists[j].id == d.activeListId.value;
    }
  }

  /** Startup: what `init` makes of the stored value always has a valid active list. */
  lemma StartupConsistent(s: Stored)
    ensures ActiveConsistent(Repair(Load(s)))
    ensures !s.Parsed? ==> Repair(Load(s)) == EmptyDoc
  {
  }
}
