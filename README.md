# Weekly planner: the task store of the `Home` page

The planner is one React page, `Home` in `src/app/page.tsx`. It draws a grid of
seven weekdays by twenty-four hours and keeps a list of tasks. Each task has a
title, a description, a day label and an hour label. Two forms drive the list:
the add form appends a task, and the edit form overwrites or deletes one. After
every change the whole list is written to the browser's key-value store under the
key `"tasks"`, and it is read back once when the page mounts.

This project models that state machine in Dafny and proves what each handler
does to it.

- `tasks.dfy` (module `Tasks`): the `Task` record, the four form fields, the
  empty draft `{"", "", "Lunes", "00:00"}`, and the single-field update that
  `handleInputChange` performs.
- `calendar.dfy` (module `Calendar`): the day table and the computed hour table
  (`padStart(2, "0")` of the hour, then `":00"`), with their facts. The hour table
  has 24 entries, runs from "00:00" to "23:00", and is strictly increasing, so
  its labels are distinct. The day table has seven distinct labels.
- `grid.dfy` (module `Grid`): the per-cell filter `CellTasks`, and `CellIndices`,
  the list positions behind a cell's buttons. The lemmas say that a cell shows
  exactly its matching tasks, in list order. A slotted task lies in exactly one
  cell, and the 7 x 24 grid draws one button per task. They also say how
  appending, overwriting and removing an entry change the cells.
- `page.dfy` (module `Page`): the component as the class `Home`, with one
  method per handler. The class has the six fields `tasks`, `draft`, `addOpen`,
  `editOpen`, `editing` and `stored`, and field-level `modifies` frames, so
  a field a handler does not name is unchanged. This module also holds the
  index filter used by delete.
- `scenarios.dfy` (module `Scenarios`): whole user flows built from the
  handlers. They cover reloading a session, cancelling either form, creating a
  task, and editing or deleting one of two tasks, both as the code is written
  and as corrected.

The store `localStorage["tasks"]` is the field `stored: Option<seq<Task>>`, held
already parsed. `None` means the key is absent. Serialisation is taken to
round-trip, so `stored == Some(tasks)` after every write.

Where the code and the design description of the planner disagree, the model
follows the code:
- `handleEditTask` with no remembered index still writes the list back and
  closes the form. The list entries are unchanged, because `updatedTasks[null]`
  adds no array entry. It is not a pure no-op.
- The day labels are the Spanish ones (`"Lunes"` to `"Domingo"`), so the
  default day is `"Lunes"`.
- The edit form receives the button's position inside its cell, not the
  task's list position. See "## Findings".

## Model

| member | source | states |
|---|---|---|
| `Tasks.WithField` | src/app/page.tsx:48-54 | the named field of the draft takes the new value; the other three fields keep theirs |
| `Calendar.PadStart` | src/app/page.tsx:82 | `padStart` reaches the width by prepending fill characters only, and the original string stays at the end |
| `Calendar.HourLabelDigits` | src/app/page.tsx:82 | for h < 24 the label is the tens digit, the units digit, then ":00" |
| `Calendar.HourLabelsIncrease` | src/app/page.tsx:82 | the label of an earlier hour sorts strictly before the label of a later hour |
| `Calendar.HoursOfDayFacts` | src/app/page.tsx:82 | the hour table has 24 two-digit labels from "00:00" to "23:00", strictly increasing and distinct |
| `Calendar.TablesDistinct` | src/app/page.tsx:81-82 | each table lists each of its labels once |
| `Grid.CellIndices` | src/app/page.tsx:102-104 | the k-th button of a cell shows the task at list position `CellIndices[k]`, that task matches the cell, and the positions increase (list order) |
| `Grid.CellIndicesComplete` | src/app/page.tsx:102-103 | every task of the list that matches a cell is drawn in that cell |
| `Grid.CellTasksMatch` | src/app/page.tsx:102-103 | every button of a cell shows a task with the cell's day and hour |
| `Grid.CellMembership` | src/app/page.tsx:102-103 | a task is in a cell if and only if it is in the list and has that day and hour |
| `Grid.CellConcat` | src/app/page.tsx:102-103 | the filter of a concatenation is the concatenation of the filters, so list order is kept |
| `Grid.ExactlyOneCell` | src/app/page.tsx:97-103 | a task with table labels is drawn in the cell of its own day and hour, which is a grid cell, and in no other cell |
| `Grid.CountGridCovers` | src/app/page.tsx:97-103 | over distinct day and hour labels covering every task, the cells together hold exactly as many buttons as there are tasks |
| `Grid.GridPartition` | src/app/page.tsx:97-103 | with the real tables, the 7 x 24 grid draws exactly one button per slotted task |
| `Grid.CellPosition` | src/app/page.tsx:102-108 | exactly k tasks of a cell come before the task behind its k-th button |
| `Grid.CellSplit` | src/app/page.tsx:102-103 | a cell is made of the entries before position g, then entry g if it matches, then the entries after g |
| `Grid.RemoveFromCells` | src/app/page.tsx:75 | removing position g leaves the entries before and after it in each cell, and a cell that does not hold entry g keeps all its buttons |
| `Grid.RemoveClicked` | src/app/page.tsx:102-108 | removing the task behind the k-th button of a cell removes exactly that button, and every other cell is unchanged |
| `Grid.AppendToCells` | src/app/page.tsx:58 | an appended task becomes the last button of its own cell, and every other cell is unchanged |
| `Grid.ReplaceInCells` | src/app/page.tsx:67-68 | overwriting position g puts the new task between the same neighbours in its own cell, and a cell that holds neither the old nor the new task is unchanged |
| `Page.DropIndexKeepsAll` | src/app/page.tsx:75 | the index filter keeps every entry when the index is null or past the end |
| `Page.DropIndexRemovesOne` | src/app/page.tsx:75 | with an in-range index the filter removes exactly that entry and keeps the rest in order |
| `Page.Home.constructor` | src/app/page.tsx:5-14 | initial state: empty list, empty draft, both forms closed, no edit index, store as found |
| `Page.Home.Load` | src/app/page.tsx:17-22 | when the key is present the list becomes its contents, otherwise it is unchanged; afterwards list and store agree |
| `Page.Home.SaveTasksToLocalStorage` | src/app/page.tsx:24-26 | the store holds exactly the given list; nothing else changes |
| `Page.Home.OpenModal` | src/app/page.tsx:30-33 | the draft is reset to the empty draft and the add form is shown; the list and the store are untouched |
| `Page.Home.CloseModal` | src/app/page.tsx:35 | only the add flag is cleared |
| `Page.Home.OpenTask` | src/app/page.tsx:37-41 | the draft is the given task, the index is remembered, and the edit form is shown; the list is untouched |
| `Page.Home.CloseTask` | src/app/page.tsx:43-46 | the edit form is hidden and the index forgotten; the list and the store are untouched |
| `Page.Home.HandleInputChange` | src/app/page.tsx:48-54 | only the named draft field changes |
| `Page.Home.HandleSaveTask` | src/app/page.tsx:56-63 | the new list is the old list plus the draft at the end, the store equals it, the draft is reset, and the add form is closed |
| `Page.Home.HandleEditTask` | src/app/page.tsx:65-72 | the length is kept, the remembered position holds the draft, every other position is unchanged, the store equals the list, and the edit form is closed with the index cleared |
| `Page.Home.HandleDeleteTask` | src/app/page.tsx:74-79 | exactly the remembered entry is removed with order kept (length minus one), or the list is unchanged when there is no index; the store equals the list, and the form is closed |
| `Page.Home.ClickCell` | src/app/page.tsx:104-108 | as written, the click loads the cell's k-th task and remembers the cell position k |
| `Page.Home.ClickCellCorrected` | src/app/page.tsx:104-108 | the remembered index is the list position of the clicked task, so `tasks[editing] == draft` |
| `Scenarios.ReloadSession` | src/app/page.tsx:17-26 | a new session over a synced store reproduces the same tasks in the same order |
| `Scenarios.CancelAdd` | src/app/page.tsx:30-35 | opening the add form, typing anything and cancelling leaves the list and the store unchanged |
| `Scenarios.CancelEdit` | src/app/page.tsx:37-54 | opening a task, typing anything and cancelling leaves the list and the store unchanged |
| `Scenarios.CreateScenario` | src/app/page.tsx:56-63 | from an empty store, adding {"Study","Math","Martes","09:00"} gives that one-task list, stored and drawn in its cell |
| `Scenarios.TwoCells` | src/app/page.tsx:102-103 | two tasks in different cells are each the only button of their cell |
| `Scenarios.EditSecondAsWritten` | src/app/page.tsx:65-72 | as written, renaming the second of two tasks overwrites the first one |
| `Scenarios.EditSecondCorrected` | src/app/page.tsx:65-72 | with the corrected click, renaming the second task keeps the first |
| `Scenarios.DeleteFirst` | src/app/page.tsx:74-79 | deleting the first of two tasks leaves the second, still drawn in its own cell |
| `Scenarios.DeleteSecondAsWritten` | src/app/page.tsx:74-79 | as written, deleting the second of two tasks removes the first |
| `Scenarios.DeleteSecondCorrected` | src/app/page.tsx:74-79 | with the corrected click, deleting the second task leaves the first |

## Findings

| source | as written | input that shows it | evidently intended | confidence | as-written member | corrected member |
|---|---|---|---|---|---|---|
| src/app/page.tsx:104-108 | `openTask(task, index)` receives the button's position inside the filtered cell list, and `handleEditTask` and `handleDeleteTask` (lines 68 and 75) use that number as a position in the whole list | list `[A, B]` with A on Lunes 10:00 and B on Lunes 11:00: clicking B remembers 0. Renaming it "B2" and saving gives `[B2, B]`, and deleting gives `[B]` | the list position of the clicked task: saving gives `[A, B2]`, deleting gives `[A]` | not executed | `Scenarios.EditSecondAsWritten` | `Page.Home.ClickCellCorrected` |

The delete case is `Scenarios.DeleteSecondAsWritten` and
`Scenarios.DeleteSecondCorrected`. The corrected click satisfies
`tasks[editing] == draft`. By `Grid.RemoveClicked`, deleting after it removes
exactly the clicked button and leaves every other cell as it was.
`Page.Home.ClickCell` keeps the behaviour as written, because that is what the
page does.

## Left out

- Markup and styling: the header, the hour column, the footer button, and the two
  nearly identical form templates (src/app/page.tsx:84-288). They are
  presentation only. The buttons are wired to the handlers modelled here.
- React state mechanics: setter asynchrony and the mount effect's lifecycle.
  Each handler is one atomic method on the current state. The mount effect is
  `Load`, which requires that no edit index is remembered yet, because it runs
  before any handler.
- `localStorage`, `JSON.stringify` and `JSON.parse`: the browser's own APIs.
  The store is the parsed field `stored` and serialisation is taken to
  round-trip. Parse failure of a corrupt stored value is not modelled, because
  the code does not handle it.
- DOM events: `e.preventDefault()` and `e.target` become plain parameters. The
  field name is the enumeration `Field` of the four form controls. A `name`
  other than those four, which in the code would add an extra property, is not
  modelled.
- Page.Home.HandleEditTask: an edit index past the end can never be
  remembered, because the class invariant `Valid()` keeps it below the list
  length. So the JavaScript behaviour of growing the array with holes is not
  modelled. With a null index, the stray `"null"` property the code sets is not
  modelled either. It adds no list entry and is not serialised.
- Grid.GridPartition: the day and hour tables are passed in as parameters
  that must equal the tables. This stops the solver from unrolling the count
  over the 168 literal cells. The statement is the same.
- Visual stacking: tasks that share a cell are drawn on top of each other. This
  is layout only.
- React `key` attributes: they are presentation only.
