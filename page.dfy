/** The `Home` component of the planner page: the task list, the draft bound to
    whichever form is open, the two form flags, the index of the task being
    edited, and the copy of the list kept under the key "tasks" of the
    browser's key-value store. */
module Page {
  import opened Options
  import opened Tasks
  import opened Grid

  /** The filter of the delete handler: keeps every entry whose position
      differs from `target`. */
  function DropIndex(s: seq<Task>, target: Option<nat>): (r: seq<Task>)
    ensures |r| <= |s|
    decreases |s|
  {
    if s == [] then []
    else
      var n := |s| - 1;
      DropIndex(s[..n], target) + (if target == Some(n) then [] else [s[n]])
  }

  /** With no index, or one past the end, the filter keeps every entry. */
  lemma {:induction false} DropIndexKeepsAll(s: seq<Task>, target: Option<nat>)
    requires target.None? || target.value >= |s|
    ensures DropIndex(s, target) == s
    decreases |s|
  {
    if s != [] {
      var n := |s| - 1;
      DropIndexKeepsAll(s[..n], target);
      assert s == s[..n] + [s[n]];
    }
  }

  /** With an in-range index, the filter removes exactly that entry and keeps
      the others in their order. */
  lemma {:induction false} DropIndexRemovesOne(s: seq<Task>, i: nat)
    requires i < |s|
    ensures DropIndex(s, Some(i)) == s[..i] + s[i + 1..]
    decreases |s|
  {
    var n := |s| - 1;
    if i == n {
      DropIndexKeepsAll(s[..n], Some(i));
      assert s[i + 1..] == [];
    } else {
      DropIndexRemovesOne(s[..n], i);
      assert s[..n][..i] == s[..i];
      assert s[..n][i + 1..] + [s[n]] == s[i + 1..];
    }
  }

  class Home {
    /** `tasks`: the list in insertion order. */
    var tasks: seq<Task>
    /** `newTask`: the draft behind the open form. */
    var draft: Task
    /** `isModalOpen`: the add form is shown. */
    var addOpen: bool
    /** `isTaskOpen`: the edit form is shown. */
    var editOpen: bool
    /** `editingTaskIndex`: null, or the index handed to `openTask`. */
    var editing: Option<nat>
    /** `localStorage["tasks"]`, already parsed: absent, or the last list written. */
    var stored: Option<seq<Task>>

    /** A remembered edit index addresses an entry of the list. */
    ghost predicate Valid()
      reads this
    {
      editing.Some? ==> editing.value < |tasks|
    }

    /** The persisted copy is the list itself (an absent key reads as empty). */
    ghost predicate InSync()
      reads this
    {
      stored == Some(tasks) || (stored.None? && tasks == [])
    }

    /** The state of a freshly mounted page, before the mount effect has run;
        `persisted` is what the store holds under "tasks" at that moment. */
    constructor (persisted: Option<seq<Task>>)
      ensures tasks == [] && draft == EmptyDraft
      ensures !addOpen && !editOpen && editing.None?
      ensures stored == persisted
      ensures Valid()
    {
      tasks := [];
      draft := EmptyDraft;
      addOpen := false;
      editOpen := false;
      editing := None;
      stored := persisted;
    }

    /** The mount effect: when the key is present, the list becomes its contents.
        It runs once, before any handler has remembered an edit index. */
    method Load()
      requires editing.None?
      modifies this`tasks
      ensures tasks == if stored.Some? then stored.value else old(tasks)
      ensures Valid()
      ensures old(tasks) == [] ==> InSync()
    {
      if stored.Some? {
        tasks := stored.value;
      }
    }

    /** `saveTasksToLocalStorage`: writes the whole list under the key. */
    method SaveTasksToLocalStorage(updated: seq<Task>)
      modifies this`stored
      ensures stored == Some(updated)
    {
      stored := Some(updated);
    }

    /** `openModal`: a fresh empty draft and the add form shown. */
    method OpenModal()
      modifies this`draft, this`addOpen
      ensures draft == EmptyDraft && addOpen
    {
      draft := EmptyDraft;
      addOpen := true;
    }

    /** `closeModal`: hides the add form; the draft stays as it was. */
    method CloseModal()
      modifies this`addOpen
      ensures !addOpen
    {
      addOpen := false;
    }

    /** `openTask(task, index)`: loads `task` into the draft, remembers `index`
        and shows the edit form. */
    method OpenTask(task: Task, index: nat)
      requires Valid() && index < |tasks|
      modifies this`draft, this`editing, this`editOpen
      ensures draft == task && editing == Some(index) && editOpen
      ensures Valid()
    {
      draft := task;
      editing := Some(index);
      editOpen := true;
    }

    /** `closeTask`: hides the edit form and forgets the edit index. */
    method CloseTask()
      modifies this`editOpen, this`editing
      ensures !editOpen && editing.None?
      ensures Valid()
    {
      editOpen := false;
      editing := None;
    }

    /** `handleInputChange`: sets the named field of the draft to `value`. */
    method HandleInputChange(name: Field, value: string)
      modifies this`draft
      ensures draft == WithField(old(draft), name, value)
      ensures Get(draft, name) == value
      ensures forall f: Field :: f != name ==> Get(draft, f) == Get(old(draft), f)
    {
      draft := WithField(draft, name, value);
    }

    /** `handleSaveTask`: appends the draft, writes the list through, resets the
        draft and hides the add form. */
    method HandleSaveTask()
      requires Valid()
      modifies this`tasks, this`stored, this`draft, this`addOpen
      ensures tasks == old(tasks) + [old(draft)]
      ensures |tasks| == |old(tasks)| + 1 && tasks[..|old(tasks)|] == old(tasks)
      ensures stored == Some(tasks) && InSync()
      ensures draft == EmptyDraft && !addOpen
      ensures Valid()
    {
      var updated := tasks + [draft];
      tasks := updated;
      SaveTasksToLocalStorage(updated);
      draft := EmptyDraft;
      CloseModal();
    }

    /** `handleEditTask`: overwrites the entry at the remembered index with the
        draft, writes the list through, and closes the edit form. With no index
        (assigning at a null key adds no entry) the entries stay as they were. */
    method HandleEditTask()
      requires Valid()
      modifies this`tasks, this`stored, this`editOpen, this`editing
      ensures tasks == if old(editing).Some? then old(tasks)[old(editing).value := old(draft)] else old(tasks)
      ensures |tasks| == |old(tasks)|
      ensures old(editing).Some? ==> tasks[old(editing).value] == old(draft)
      ensures forall j :: 0 <= j < |tasks| && old(editing) != Some(j) ==> tasks[j] == old(tasks)[j]
      ensures stored == Some(tasks) && InSync()
      ensures !editOpen && editing.None?
      ensures Valid()
    {
      var updated := tasks;
      if editing.Some? {
        updated := updated[editing.value := draft];
      }
      tasks := updated;
      SaveTasksToLocalStorage(updated);
      CloseTask();
    }

    /** `handleDeleteTask`: filters out the entry at the remembered index, writes
        the list through, and closes the edit form. */
    method HandleDeleteTask()
      requires Valid()
      modifies this`tasks, this`stored, this`editOpen, this`editing
      ensures tasks == DropIndex(old(tasks), old(editing))
      ensures old(editing).Some? ==>
        |tasks| == |old(tasks)| - 1 &&
        tasks == old(tasks)[..old(editing).value] + old(tasks)[old(editing).value + 1..]
      ensures old(editing).None? ==> tasks == old(tasks)
      ensures stored == Some(tasks) && InSync()
      ensures !editOpen && editing.None?
      ensures Valid()
    {
      var updated := DropIndex(tasks, editing);
      if editing.Some? {
        DropIndexRemovesOne(tasks, editing.value);
      } else {
        DropIndexKeepsAll(tasks, editing);
      }
      tasks := updated;
      SaveTasksToLocalStorage(updated);
      CloseTask();
    }

    /** The click on the `k`-th button of cell (`day`, `hour`): `openTask` with
        the button's task and its position `k` inside the cell. */
    method ClickCell(day: string, hour: string, k: nat)
      requires Valid() && k < |CellTasks(tasks, day, hour)|
      modifies this`draft, this`editing, this`editOpen
      ensures draft == CellTasks(tasks, day, hour)[k] && InCell(draft, day, hour)
      ensures editing == Some(k) && editOpen
      ensures Valid()
    {
      var cell := CellTasks(tasks, day, hour);
      CellTasksMatch(tasks, day, hour, k);
      OpenTask(cell[k], k);
    }

    /** The click as evidently intended: the remembered index is the list
        position of the task the button shows. */
    method ClickCellCorrected(day: string, hour: string, k: nat)
      requires Valid() && k < |CellTasks(tasks, day, hour)|
      modifies this`draft, this`editing, this`editOpen
      ensures draft == CellTasks(tasks, day, hour)[k] && InCell(draft, day, hour)
      ensures editing.Some? && editing.value < |tasks| && tasks[editing.value] == draft
      ensures editing == Some(CellIndices(tasks, day, hour)[k]) && editOpen
      ensures Valid()
    {
      var cell := CellTasks(tasks, day, hour);
      var position := CellIndices(tasks, day, hour)[k];
      CellTasksMatch(tasks, day, hour, k);
      OpenTask(cell[k], position);
    }
  }
}
