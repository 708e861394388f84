# To-do list task store, in Dafny

A model of the state machine inside `script.js` of a browser to-do list.
The page keeps an ordered list of tasks `{id, title, completed}` and a
current filter (`all`, `active`, `completed`). Form submits, checkbox
changes, delete clicks, inline edits, the clear-completed button and
drag-and-drop change that state. After each change the list is saved to
`localStorage` and re-rendered. Beside the list sit a theme selector with a
custom palette and a customizer modal, and a language choice with a
fallback to English.

The model is split by concern:

- `Text` (text.dfy): ECMAScript's `trim`, with its whitespace set, proved to
  remove exactly a blank prefix and a blank suffix.
- `Tasks` (tasks.dfy): the task record, `Array.prototype.filter`, the
  filtered view, the items-left counter, and each store transition as a
  function on the sequence, with lemmas about each.
- `Reorder` (reorder.dfy): `indexOf` and the stable sort that
  `syncTasksOrderFromDOM` performs.
- `Store` (store.dfy): the class `TaskList`. It holds `tasks`, `filter` and
  a ghost log of every list written to storage. Its methods are the event
  handlers, each proved against the transition functions of `Tasks` and
  `Reorder`. Its invariant says ids are unique and every title is
  non-empty and trimmed.
- `Storage` (storage.dfy): what a guarded `getItem` returns, and the
  `getItem(key) || fallback` idiom.
- `Theme` (theme.dfy): theme validation, `toColor` and the seeding of the
  colour inputs. The class `Appearance` holds the theme, the customize
  button, the modal and its Escape listener.
- `Language` (language.dfy): `getLang`, the choice of translation table,
  and the lookup as written (see Findings).

The reorder sorts the tasks by `ids.indexOf(id)`. A task missing from `ids`
gets `indexOf`'s -1 as its key, so such tasks move ahead of every listed
task and keep their order among themselves (`Reorder.UnlistedFirst`). The
checkbox handler stores the checkbox's state, `task.completed =
checkbox.checked`, rather than flipping the flag. The model takes that
state as a parameter, and `Tasks.ToggleTwice` proves that ticking and
unticking restores the list.

## Model

| member | source | states |
|---|---|---|
| Text.Trim | script.js:382 | The trimmed title is what is left of the input once its leading whitespace and a blank suffix are removed, and neither of its ends is whitespace |
| Text.TrimEmptyIffBlank | script.js:382-383 | `title.trim()` is empty exactly when every character is whitespace, so the `if (!t) return` test rejects exactly the blank titles |
| Text.TrimTrimmed | script.js:336-338 | Trimming an already trimmed title returns it unchanged, so trimming is idempotent |
| Text.TrimExample | script.js:381-383 | `"  Buy milk  "` trims to `"Buy milk"` and `"   "` trims to the empty string |
| Tasks.Keep | script.js:136-137 | The filter result holds exactly the elements that pass, and it is no longer than the input |
| Tasks.KeepSubsequence | script.js:136-137 | The filter result is an order-preserving subsequence of the input |
| Tasks.KeepAppend | script.js:136-137 | Filtering a concatenation is the concatenation of the filtered parts |
| Tasks.KeepSplits | script.js:136-137 | A filter and its negation together hold every element once: their lengths add up to the total and their multisets add up to the input's |
| Tasks.Visible | script.js:134-140 | `all` returns the whole list; every view holds exactly the tasks its filter shows |
| Tasks.ViewsPartition | script.js:134-140 | The active and completed views have no task in common, their lengths sum to the length of the whole list, and their multisets sum to the list's |
| Tasks.FiltersKeepOrder | script.js:134-140 | Every view, the list after a delete, and the list after clearing completed tasks are order-preserving subsequences of the list |
| Tasks.ItemsLeft | script.js:142-145 | The counter equals the length of the active view, and equals the total minus the number of completed tasks |
| Tasks.AddTask | script.js:381-385 | A blank title leaves the list unchanged; otherwise the result is one new open task with the trimmed title, followed by the old list unchanged |
| Tasks.AddWellFormed | script.js:381-385 | Adding with a fresh id keeps ids unique and titles non-empty and trimmed |
| Tasks.AddCounter | script.js:381-389 | Adding a non-blank title raises the items-left counter by one; a blank one leaves it unchanged |
| Tasks.DeleteTask | script.js:299-303 | The result holds exactly the tasks with another id; an absent id leaves the list unchanged |
| Tasks.DeleteAt | script.js:300 | With unique ids, deleting the id at position k removes exactly position k |
| Tasks.DeleteUndoesAdd | script.js:381-385 | Deleting the id just added restores the list as it was before the add |
| Tasks.KeepWellFormed | script.js:300 | Filtering a list whose ids are unique and whose titles are clean keeps both properties |
| Tasks.UpdateTask | script.js:284 | Only the tasks with the given id are changed; every other task and every position stays the same |
| Tasks.SetCompleted | script.js:283-287 | Only the `completed` flag of the task with that id takes the checkbox's state; ids, titles and order are unchanged, and an absent id changes nothing |
| Tasks.SetCompletedAt | script.js:283-287 | With unique ids, ticking the task at position k replaces only position k, by the same task with the new state |
| Tasks.ToggleTwice | script.js:283-287 | Ticking a task and then unticking it, or the reverse, restores the list |
| Tasks.SetCompletedCounter | script.js:283-287 | Ticking an open task lowers the counter by one, unticking a done task raises it by one, and re-setting the same state leaves it unchanged |
| Tasks.SetCompletedWellFormed | script.js:283-287 | Ticking keeps ids unique and titles clean |
| Tasks.FinishEdit | script.js:334-346 | Cancel changes nothing; committing blank text deletes the task; committing other text sets that task's title to the trimmed text, and ids, flags and the other titles stay the same |
| Tasks.FinishEditAt | script.js:334-346 | With unique ids, a commit on position k rewrites only that title, or removes only that position when the text is blank |
| Tasks.RetitleAt | script.js:336-338 | With unique ids, committing non-blank text on position k replaces only that task, by the same task with the trimmed title |
| Tasks.FinishEditWellFormed | script.js:334-346 | Every outcome of an edit keeps ids unique and titles non-empty and trimmed |
| Tasks.FinishTwice | script.js:334-352 | Committing the same text twice leaves the list as the first commit left it; in a browser that fires `blur` when `render()` removes the focused field, Enter followed by that blur commits twice, and the second commit changes nothing |
| Tasks.EditAsWritten | script.js:345-352 | In a browser that fires `blur` when `render()` removes the focused edit field, every ending of an edit, Escape included, leaves the list as one commit of the field's text does (see Findings) |
| Tasks.EditOnce | script.js:348-352 | The intended ending: Escape leaves the list unchanged, and Enter or a loss of focus commits the text once |
| Tasks.EscapeChangesList | script.js:345-352 | As written, Escape with blank text, or with text whose trimmed form differs from the task's title, gives another list than the intended cancel |
| Tasks.EscapeExample | script.js:345-352 | Editing "Buy milk" into "Buy bread" and pressing Escape keeps "Buy bread" as written, where the intended cancel keeps "Buy milk" |
| Tasks.ClearCompleted | script.js:397-403 | The result holds exactly the open tasks; with no completed task it is the list unchanged |
| Tasks.ClearCompletedIdempotent | script.js:397-403 | Clearing twice equals clearing once; the result equals the active view; the counter is unchanged and equals the result's length |
| Reorder.IndexOf | script.js:364 | `indexOf` returns -1 exactly when the id is absent; otherwise it returns the first position that holds the id |
| Reorder.Insert | script.js:364 | Inserting gives a list one longer, holding the old tasks and one more copy of the inserted task |
| Reorder.InsertSorted | script.js:364 | Inserting into a sorted list keeps it sorted, and the new first task is the inserted one or the old first one |
| Reorder.SortByIds | script.js:364 | The sorted list is a permutation of the tasks, ordered by the position of each task's id in `ids` |
| Reorder.SortStable | script.js:364 | The sort is stable: the tasks that share a key keep their old relative order |
| Reorder.UnlistedFirst | script.js:364 | Tasks whose id is not listed end up first, in their old order, and every later task's id is listed |
| Reorder.SortFollowsIds | script.js:361-366 | When `ids` lists each task's id once, as the "all" view does, the new order of ids is exactly `ids` |
| Reorder.RanksCountUp | script.js:364 | In a sorted list with unique ids, all listed in an id order of the same length, each task's sort key is its position |
| Reorder.SortWellFormed | script.js:364 | Sorting keeps ids unique and titles clean |
| Reorder.SortDistinct | script.js:364 | Sorting a list with unique ids keeps the ids unique |
| Reorder.ReorderExample | script.js:361-366 | Dropping c on top of [a, b, c] gives [c, a, b] |
| Store.TaskList.constructor | script.js:11-14 | The store starts with an empty list, the "all" filter and nothing written |
| Store.TaskList.Add | script.js:381-389 | The list becomes `AddTask` of the old list; it is saved only when the title is not blank; the filter is unchanged |
| Store.TaskList.Toggle | script.js:283-287 | The list becomes `SetCompleted` of the old list and is saved |
| Store.TaskList.Delete | script.js:299-303 | The list becomes `DeleteTask` of the old list and is saved |
| Store.TaskList.Finish | script.js:334-346 | The list becomes `FinishEdit` of the old list; it is saved only on a commit |
| Store.TaskList.EndEdit | script.js:348-352 | The intended end of an edit: Escape changes nothing and saves nothing; Enter or a loss of focus commits once and saves |
| Store.TaskList.Clear | script.js:397-403 | The list becomes `ClearCompleted` of the old list; it is saved only when some task was completed |
| Store.TaskList.SyncOrder | script.js:361-366 | Outside the "all" filter nothing changes and nothing is saved; under it the list becomes `SortByIds` of the old list and is saved |
| Store.TaskList.SetFilter | script.js:124-132 | Only the filter changes; nothing is saved |
| Storage.StoredOr | script.js:59-65 | The result is the stored string when it is non-empty; otherwise, including when the read throws, it is the fallback |
| Theme.Validate | script.js:74 | A known theme name selects the theme of that name, and any other string selects `system` |
| Theme.NameRoundTrip | script.js:74 | Every theme's name is in the known list and validates back to that theme |
| Theme.LoadTheme | script.js:59-65 | The stored theme string is returned when it is non-empty; a missing, empty or unreadable value gives "system" |
| Theme.StartTheme | script.js:494-495 | The page starts in the stored theme when it names one; a missing, unreadable or unknown value starts it in `system` |
| Theme.ToColor | script.js:96-100 | The result is the value when it is a string starting with '#', and the fallback otherwise |
| Theme.SeedInputs | script.js:84-89 | Every colour input gets a '#' colour: the stored channel when it is a '#' string, and the channel's fallback colour otherwise |
| Theme.Appearance.constructor | script.js:494-495 | Start-up applies the loaded theme with the modal closed |
| Theme.Appearance.Apply | script.js:71-94 | The validated theme becomes current. `custom` shows the customize button and seeds the inputs; any other theme hides the button and closes the modal. The button is shown exactly under `custom` and the modal is open only under it |
| Theme.Appearance.ShowModal | script.js:431-436 | The modal opens and the Escape listener is registered |
| Theme.Appearance.HideModal | script.js:437-442 | The modal closes, the Escape listener is removed, and nothing else changes |
| Theme.Appearance.KeyDown | script.js:443 | Only Escape, and only while the modal is open, closes the modal |
| Theme.Appearance.ModalClick | script.js:451-455 | A click on the backdrop closes the modal; any other click leaves it as it was |
| Language.GetLang | script.js:221-223 | A non-empty stored code is returned; otherwise the locale's first two characters; otherwise "en"; an unreadable store gives "en" |
| Language.Table | script.js:225-228 | A supported code selects its own table, and any other code selects English |
| Language.CodeRoundTrip | script.js:224-228 | A saved language code is read back and selects the same table |
| Language.LocaleExamples | script.js:221-228 | With nothing stored, locale "es-ES" selects Spanish and "pt-BR" selects English; an unreadable store selects English |
| Language.LookupAsWritten | script.js:225-228 | The lookup as written returns no table exactly for the names inherited from Object.prototype; everywhere else it agrees with `Table` |
| Language.InheritedNameIsNotATable | script.js:225-228 | A stored code of "constructor" passes the `in` test as written and returns no table, where the English table was intended |

## Left out

- Loading and saving (script.js:38-69, 113-122, 224): `localStorage` and JSON are I/O. A save appears only as a new entry in `TaskList.writes`. Stored theme and language values are parameters of type `Storage.Read`. The store starts empty, as it does when nothing is stored.
- Loaded data that breaks the invariant is not modelled. `loadFromStorage` accepts duplicate ids and empty titles, which `TaskList.Valid` excludes. The handlers capture a task object; the model finds the task by its id, which is the same thing only while ids are unique.
- Store.TaskList.Add: the fresh id comes from `crypto.randomUUID` or `Date.now() + Math.random()` (script.js:384), which is nondeterministic. The model takes it as a parameter and requires that it is not already in use. The source does not check this.
- Rendering (`render`, `createTaskElement`, `applyI18n`, `setRootVariables`, `formatItemsLeft`) is presentation only and changes no modelled state. So is clearing the input box after an add (script.js:387).
- The drag geometry (`getDragAfterElement` and the `dragover` handler, script.js:368-379 and 407-419) uses pixel positions. `SyncOrder` receives the resulting on-screen id order as a parameter.
- Filter values: `setFilter` receives the `data-filter` attribute of the filter buttons, whose markup is not part of this model. The model allows only the three filter values. Any other string would show every task yet disable reordering.
- The OS colour-scheme listener (script.js:470-478), the live update of custom colours (script.js:457-468) and the theme selector's save (script.js:426) are left out. They are storage writes, CSS variables and environment signals.
- The translation strings (script.js:148-219) are static data, so a table is named only by its language. The language selector's initialisation (script.js:480-489) is left out because it is DOM wiring.
- Theme.ToColor: stored palette values that are not strings (`.toString()` of a number or an object) are not modelled; a channel is either a string or absent.
- Theme.Appearance.ShowModal: it requires the customize button to be shown, because that button is its only caller and a hidden button cannot be clicked. The model drops the source's `if (!modal) return;` and `if (colorInputs.x)` guards and assumes every element exists.
- Strings are sequences of Unicode scalar values rather than UTF-16 units. None of the characters `trim` removes lies outside the Basic Multilingual Plane.

## Findings

| source | as written | input that shows it | evidently intended | confidence | as-written member | corrected member |
|---|---|---|---|---|---|---|
| script.js:225-228 | `getLang() in translations` also accepts property names inherited from Object.prototype. `t()` then returns that property instead of a table, and `applyI18n` throws on `dict.filters[type]` (script.js:266). The throw happens during start-up (script.js:496), before the first `render()` | the stored language `todo.lang.v1` set to "constructor" | any code without its own table falls back to the English table | not executed; the `in` semantics are certain, but the input needs a hand-edited stored value | Language.LookupAsWritten; Language.InheritedNameIsNotATable | Language.Table |
| script.js:345-352 | `finish(false)` on Escape calls `render()`, which removes the focused edit field. Where the browser fires `blur` on that removal, the blur listener calls `finish(true)` with the field's text, so Escape commits the edit, or deletes the task when the text is blank | edit "Buy milk" into "Buy bread" and press Escape: the title becomes "Buy bread" | Escape leaves the list as it was | not executed; depends on the browser firing `blur` when the focused field is removed, as Chromium does | Tasks.EditAsWritten; Tasks.EscapeChangesList; Tasks.EscapeExample | Tasks.EditOnce; Store.TaskList.EndEdit |
