# Multi-list to-do app: the state layer, in Dafny

The app keeps a document `{lists, activeListId}` in browser storage. Each list is
`{id, name, tasks}` and each task is `{id, text, done}`. Beside the document it
holds the one most recently deleted task, so that a toast can offer to undo the
deletion. Everything else in `app.js` is rendering and event wiring that calls
this layer.

The model is split into six modules:

- `Wrappers` (wrappers.dfy): `Option`, which stands for JavaScript's `null`.
- `Splice` (splice.dfy): the array surgery the handlers do with `splice` and
  `push`, written on sequences. It has the clamp the undo uses and the lemmas
  about moving one element: it is a permutation, it can be undone, and the
  other elements keep their relative order.
- `Text` (text.dfy): JavaScript's `trim`, with its exact white-space set, and
  `escapeHtml`. Beside `escapeHtml` is a decoder for exactly the five entities
  it emits, so that escaping can be proved lossless: decoding those five
  entities gives back the original text.
- `ListColor` (color.dfy): `getListColor`. Its loop runs over the id's UTF-16
  code units and is proved against a recursive definition of the hash.
  Because the hash is reduced modulo 8, the palette size, at every step, the
  swatch depends only on each code unit modulo 8. So two ids of the same
  length whose units agree modulo 8 always get the same colour. For instance
  `"a"` and `"i"`, which are 8 apart, share a swatch.
- `Todo` (todo.dfy): the document and the undo record as datatypes. Every
  handler is one function from the old state to the new one. The lemmas say
  what the handlers promise: the delete/undo round trip, the one-slot undo,
  reordering as a permutation, toggling twice as the identity, idempotent
  edits and renames, and the active list staying valid.
- `Store` (store.dfy): class `TodoApp`. Its fields `lists`, `activeListId` and
  `lastDeleted` are the module-level variables of app.js. It has one method per
  handler, with the same early returns as the source. Each method is proved to
  produce exactly the state the matching `Todo` function gives.

The browser's answers become parameters. `prompt` becomes an `Option<string>`,
where `None` means cancelled. `confirm` becomes a `bool`. The string `uid()`
returns is passed in. The undo timer becomes an explicit `Expire` step.

Three points where the code does less than one might expect:

- The code does not keep the stronger rule "no active id exactly when there
  are no lists". `init` leaves a dangling active id in place when there are
  no lists, and `setActive` stores any id it is given. The model proves the
  weaker `ActiveConsistent` (whenever there are lists, the active id names one
  of them). It holds after startup and after every handler except `setActive`
  with an unknown id. The strict form is proved only after deleting the
  current list.
- Dismiss only hides the toast (app.js:359-361). It does not empty the undo
  slot, so it is not a state change here.
- Renaming always acts on the active list. With a dangling active id,
  "delete current list" removes nothing but still resets the active id to
  the first list.

## Model

| member | source | states |
|---|---|---|
| Todo.IndexOfList | app.js:45 | `find` by id: the first list with that id, or none when no list has it (both directions) |
| Todo.IndexOfTask | app.js:283 | `findIndex` by id: the first task with that id, or none exactly when no task has it |
| Todo.FindList | app.js:45 | `findList(id)`: the first list with that id; nothing exactly when the id is `null` or no list carries it |
| Todo.ActiveIndex | app.js:256 | `findList(state.activeListId)`, the list every task handler acts on: a found index holds a list with the active id |
| Todo.ActiveIndexIsFirst | app.js:256 | that list is the first with the active id, and there is none exactly when the active id is `null` or names no list |
| Todo.Load | app.js:9-14 | `loadData`, together with the shape check at the top of `init`: a parsed document is kept as it is, anything else becomes the empty document |
| Todo.StartupConsistent | app.js:9-39 | whatever storage holds, the document after loading and `init` has a valid active list; absent or unusable storage gives the empty document |
| Todo.Repair | app.js:36-39 | the startup repair leaves the lists alone, always yields a valid active list, changes nothing when the active list was already valid, and otherwise makes the first list active |
| Todo.SetActive | app.js:46-48 | sets the active id and nothing else; the result is consistent exactly when there are no lists or the id names a list |
| Todo.AddList | app.js:229-239 | all-white-space names change nothing; otherwise the list `{id, trimmed name, []}` is appended and made active; consistency is kept |
| Todo.AddListMakesItActive | app.js:234-235 | with a fresh id, the new list is the active one, it is empty, and it has the trimmed name |
| Todo.AddThenDeleteList | app.js:229-249 | deleting a list just added with a fresh id gives back the earlier sequence of lists |
| Todo.WithoutList | app.js:248 | the filter keeps exactly the lists whose id differs (membership in both directions) |
| Todo.WithoutListAppend | app.js:248 | the filter works list by list, so the remaining lists keep their order |
| Todo.WithoutListAbsent | app.js:248 | with no list of that id the filter keeps everything |
| Todo.WithoutListKeeps | app.js:248-249 | a list whose id is not the deleted one stays in the sequence |
| Todo.FirstId | app.js:249 | the fallback active id: none exactly when no list remains, otherwise the first list's id |
| Todo.DeleteList | app.js:241-252 | unconfirmed changes nothing; confirmed removes the lists with that id; if that id was active, the first remaining list (or none) becomes active; otherwise the active id stays; consistency is kept |
| Todo.DeleteCurrentList | app.js:202-209 | with no or an empty active id, or without confirmation, nothing changes; otherwise the active id's lists go, the first remaining list (or none) becomes active, and the strict invariant holds |
| Todo.RenameList | app.js:211-219 | only the active list's name can change; cancel or no active list changes nothing; an all-white-space answer keeps the old name, any other answer sets the trimmed one |
| Todo.RenameIdempotent | app.js:216 | renaming twice with the same answer is renaming once |
| Todo.AddTask | app.js:255-265 | no active list or an all-white-space text changes nothing; otherwise `{id, trimmed text, done: false}` is appended to the active list after the unchanged earlier tasks, and nothing else changes |
| Todo.ToggleTask | app.js:267-274 | only the first task with that id in the active list changes, and only in `done`, which flips; a missing id changes nothing |
| Todo.ToggleTwice | app.js:272 | toggling the same task twice gives back the document |
| Todo.Retext | app.js:314 | the edited task keeps its id and done flag; its text becomes the trimmed answer, or stays as it was when the answer is all white space |
| Todo.EditTask | app.js:307-317 | only the matching task's text changes: set to the trimmed answer, kept when the answer is all white space; cancel or a missing id changes nothing |
| Todo.EditIdempotent | app.js:314 | editing twice with the same answer is editing once |
| Todo.ReorderTasks | app.js:319-329 | a missing id or equal indices change nothing; otherwise the active list's tasks become the move of the `from` task to the target's index taken before removal, with the other lists untouched |
| Todo.ReorderPermutes | app.js:322-326 | after a reorder the tasks are a permutation of the old ones, of the same length, with the moved task at the target's old index |
| Todo.MoveTaskToEnd | app.js:165-171 | a missing id changes nothing; otherwise the dragged task is taken out and pushed onto the end of the active list |
| Todo.MoveToEndPermutes | app.js:167-170 | after a background drop the dragged task is last, the others keep their order, and the multiset of tasks is unchanged |
| Todo.DeleteTask | app.js:279-305 | a missing task changes nothing; otherwise the task leaves the active list and the undo slot holds exactly `{active list id, task, index}` |
| Todo.DeleteForgetsPrevious | app.js:290-302 | a new deletion replaces whatever the slot held before |
| Todo.Restore | app.js:344-357 | the slot is empty afterwards in every case; an empty slot changes nothing; a vanished list gets nothing inserted; otherwise the task is inserted into its list at the clamped index |
| Todo.RestoreInBounds | app.js:350-351 | the insertion index lies in `[0, length]` and the list grows by exactly one |
| Todo.RestoreTwice | app.js:345-354 | a second undo is a no-op |
| Todo.DeleteThenRestore | app.js:279-354 | delete followed by undo, with nothing in between, restores the document exactly and empties the slot |
| Todo.Expire | app.js:292-295 | the timer drops the record and leaves the document alone |
| Todo.OutlineKeepsConsistent | app.js:36-38 | renaming and every task operation keep the outline (list ids, their order, the active id), so a valid active list stays valid |
| Splice.RemoveAt | app.js:286 | `splice(i, 1)`: one shorter, earlier elements kept, later ones shifted left by one |
| Splice.InsertAt | app.js:351 | `splice(i, 0, x)`: one longer, `x` at `i`, earlier elements kept, later ones shifted right |
| Splice.Clamp | app.js:350 | `min(max(0, i), len)` lies in `[0, len]`, is `i` while `i` is in range, and saturates at both ends |
| Splice.InsertRemoved | app.js:286 | inserting the removed element back at its index gives back the sequence |
| Splice.Move | app.js:325-326 | the splice pair of a reorder: the length is kept and the moved element lands at the target index |
| Splice.MoveIsPermutation | app.js:325-326 | a move keeps length and multiset, puts the moved element at the target index, and keeps the others' order |
| Splice.MoveInverse | app.js:325-326 | moving back from the target index to the source index undoes a move |
| Splice.MoveAdjacentSwaps | app.js:325-326 | a move onto a neighbour swaps the two |
| Splice.MoveToEnd | app.js:169-170 | splice out and push: the length is kept and the moved element is last |
| Splice.MoveToEndIsPermutation | app.js:169-170 | moving to the end keeps the multiset, puts the element last and keeps the others' order |
| Text.TrimStart | app.js:231 | drops exactly the longest all-white-space prefix |
| Text.TrimEnd | app.js:231 | drops exactly the longest all-white-space suffix |
| Text.Trim | app.js:231 | `trim()`: the result is a slice of the input with only white space outside it, has no leading or trailing white space, and is empty exactly when the input is all white space |
| Text.TrimIdempotent | app.js:216 | trimming twice is trimming once |
| Text.TrimOfTrimmed | app.js:259 | a string without surrounding white space is unchanged |
| Text.Entity | app.js:147 | exactly the five special characters are replaced, and no replacement holds `<`, `>`, `"` or `'` |
| Text.EscapeHtml | app.js:147 | the output holds no raw `<`, `>`, `"` or `'` and is at least as long as the input |
| Text.EscapeHtmlAppend | app.js:147 | escaping works character by character |
| Text.EscapeHtmlPlain | app.js:147 | text without special characters passes through unchanged |
| Text.UnescapeEscapeHtml | app.js:147 | decoding the escaped text gives back the original: the substitution loses nothing |
| Text.EscapeHtmlInjective | app.js:147 | two different texts never escape to the same markup |
| ListColor.CodeUnits | app.js:150 | `charCodeAt` values: one unit below U+10000; above it exactly two, a high and a low surrogate that encode the character |
| ListColor.Utf16 | app.js:150 | a string's code units, at least one per character, all below 0x10000 |
| ListColor.Utf16Basic | app.js:150 | for text in the basic plane, the i-th code unit is the i-th character's code |
| ListColor.ColorIndex | app.js:150 | the running hash `(n*31 + code) % 8` is always a valid index into the 8-entry palette |
| ListColor.ColorIndexModulo | app.js:150 | the colour depends only on each code unit modulo 8: ids of the same length whose units agree modulo 8 get the same swatch |
| ListColor.SameSwatchExample | app.js:150 | the ids `"a"` and `"i"` get the same colour |
| ListColor.GetListColor | app.js:148-151 | the loop returns the palette entry at the hash of the id's code units, so the lookup is always in range |
| Store.TodoApp.constructor | app.js:9-39 | loading and `init` give `Repair(Load(stored))`, with nothing held for undo and a valid active list |
| Store.TodoApp.Init | app.js:33-39 | the new document is `Repair` of the old one; the undo slot is untouched |
| Store.TodoApp.SetActive | app.js:46-50 | new state is `Todo.SetActive` of the old; undo slot untouched |
| Store.TodoApp.AddList | app.js:229-239 | new state is `Todo.AddList` of the old; undo slot untouched |
| Store.TodoApp.DeleteList | app.js:241-252 | new state is `Todo.DeleteList` of the old; undo slot untouched |
| Store.TodoApp.DeleteCurrentList | app.js:202-209 | new state is `Todo.DeleteCurrentList` of the old; undo slot untouched |
| Store.TodoApp.RenameList | app.js:211-219 | new state is `Todo.RenameList` of the old; undo slot untouched |
| Store.TodoApp.AddTask | app.js:255-265 | new state is `Todo.AddTask` of the old; undo slot untouched |
| Store.TodoApp.ToggleTaskDone | app.js:267-274 | new state is `Todo.ToggleTask` of the old; undo slot untouched |
| Store.TodoApp.EditTask | app.js:307-317 | new state is `Todo.EditTask` of the old; undo slot untouched |
| Store.TodoApp.DeleteTask | app.js:279-305 | new document and undo slot are `Todo.DeleteTask` of the old |
| Store.TodoApp.ReorderTasks | app.js:319-329 | new state is `Todo.ReorderTasks` of the old; undo slot untouched |
| Store.TodoApp.DropOnBackground | app.js:165-173 | new state is `Todo.MoveTaskToEnd` of the old; undo slot untouched |
| Store.TodoApp.UndoDelete | app.js:344-357 | new document and undo slot are `Todo.Restore` of the old |
| Store.TodoApp.Expire | app.js:292-295 | new document and undo slot are `Todo.Expire` of the old |

## Left out

- Rendering (`render`, `renderLists`, `renderTasks`, the toast's show, hide and creation, `requestAnimationFrame`, focus handling): it only projects the state onto the page.
- Event wiring (`attachEvents`, `onTasksClick`, the action attributes, `draggedTaskId`, `eventsAttached`, draggable flags) and the guards on it: the drop-target and empty-drag checks at app.js:163-164, the drop-on-task guard at app.js:139, and the missing-input-field returns at app.js:230 and 258. The operations take their ids and texts directly.
- `localStorage`, `JSON.parse` and `JSON.stringify` (app.js:9-15). What storage holds is the parameter `Stored`: absent, unusable (does not parse, or has no `lists` array), or a parsed document. `saveData` writes the whole document and is not modelled, so the model does not show that storage matches memory after each handler.
- `setTimeout` and `clearTimeout` (app.js:290-295, 347): the firing of the timer is the explicit `Expire` step. The timer handle is not stored in the undo record.
- `uid()` (app.js:7) uses `Math.random`; its result is a parameter. No operation requires it to be fresh, because the source gives no such guarantee. Only the lemmas that need a fresh id require one.
- `confirm`, `prompt` and `alert` are parameters, or nothing when they only report a message.
- The "clear all" button (app.js:221-226) and the Dismiss button (app.js:359-361) are outside the modelled state layer. Dismiss only hides the toast and leaves the undo record in place.
- Object identity: lists and tasks are values inside the sequences. The source shares no list or task object between two places in the state. The removed task is held only by the undo record.
- `escapeHtml`'s `String(str || '')` conversion of `null` and `undefined`: names and texts are always strings here.
- UTF-16: JavaScript handles strings as UTF-16 code units and Dafny handles them as Unicode characters. Neither trim's white space nor the five escaped characters lie outside the basic plane, so the results are the same. `getListColor` is modelled over the code units explicitly.
