/** Sessions of the planner page built from its handlers: the create, edit,
    delete, cancel and reload flows. */
module Scenarios {
  import opened Options
  import opened Tasks
  import opened Grid
  import opened Page

  /** A new session over whatever the previous one left in the store: when the
      store was in sync, it reproduces the same tasks in the same order. */
  method ReloadSession(prev: Home) returns (next: Home)
    requires prev.InSync()
    ensures next.tasks == prev.tasks && next.stored == prev.stored
    ensures !next.addOpen && !next.editOpen && next.editing.None? && next.Valid()
  {
    next := new Home(prev.stored);
    next.Load();
  }

  /** Cancelling the add form, whatever was typed, leaves the list and the store
      as they were. */
  method CancelAdd(h: Home, edits: seq<(Field, string)>)
    requires h.Valid()
    modifies h
    ensures h.tasks == old(h.tasks) && h.stored == old(h.stored)
    ensures !h.addOpen && h.Valid()
  {
    h.OpenModal();
    var i := 0;
    while i < |edits|
      invariant 0 <= i <= |edits|
      invariant h.tasks == old(h.tasks) && h.stored == old(h.stored)
      invariant h.Valid()
    {
      h.HandleInputChange(edits[i].0, edits[i].1);
      i := i + 1;
    }
    h.CloseModal();
  }

  /** Cancelling the edit form, whatever was typed, leaves the list and the
      store as they were and forgets the edit index. */
  method CancelEdit(h: Home, day: string, hour: string, k: nat, edits: seq<(Field, string)>)
    requires h.Valid() && k < |CellTasks(h.tasks, day, hour)|
    modifies h
    ensures h.tasks == old(h.tasks) && h.stored == old(h.stored)
    ensures !h.editOpen && h.editing.None? && h.Valid()
  {
    h.ClickCell(day, hour, k);
    var i := 0;
    while i < |edits|
      invariant 0 <= i <= |edits|
      invariant h.tasks == old(h.tasks) && h.stored == old(h.stored)
      invariant h.Valid()
    {
      h.HandleInputChange(edits[i].0, edits[i].1);
      i := i + 1;
    }
    h.CloseTask();
  }

  /** From an empty store, adding {"Study", "Math", "Martes", "09:00"} yields a
      one-task list, and the store holds that same list. */
  method CreateScenario() returns (h: Home)
    ensures h.tasks == [Task("Study", "Math", "Martes", "09:00")]
    ensures h.stored == Some(h.tasks)
    ensures CellTasks(h.tasks, "Martes", "09:00") == h.tasks
  {
    h := new Home(None);
    h.Load();
    h.OpenModal();
    h.HandleInputChange(Title, "Study");
    h.HandleInputChange(Description, "Math");
    h.HandleInputChange(Day, "Martes");
    h.HandleInputChange(Time, "09:00");
    h.HandleSaveTask();
    assert h.tasks == [Task("Study", "Math", "Martes", "09:00")];
    assert h.tasks[..0] == [];
  }

  /** Two tasks in different cells, `a` first and `b` second, such as task "A"
      on Monday at 10:00 and task "B" on Monday at 11:00: each is the only
      button of its cell, so both are drawn at cell position 0. */
  lemma TwoCells(a: Task, b: Task)
    requires !InCell(a, b.day, b.time)
    ensures CellTasks([a, b], a.day, a.time) == [a] && CellIndices([a, b], a.day, a.time) == [0]
    ensures CellTasks([a, b], b.day, b.time) == [b] && CellIndices([a, b], b.day, b.time) == [1]
  {
    assert [a, b][..1] == [a] && [a][..0] == [];
  }

  /** As written: clicking `b` remembers its cell position 0, so renaming it
      overwrites `a` and leaves `b` as it was. */
  method EditSecondAsWritten(a: Task, b: Task, title: string) returns (h: Home)
    requires !InCell(a, b.day, b.time)
    ensures h.tasks == [b.(title := title), b]
    ensures h.stored == Some(h.tasks)
  {
    h := new Home(Some([a, b]));
    h.Load();
    assert h.tasks == [a, b];
    TwoCells(a, b);
    h.ClickCell(b.day, b.time, 0);
    assert h.draft == b && h.editing == Some(0) && h.tasks == [a, b];
    h.HandleInputChange(Title, title);
    assert h.draft == b.(title := title) && h.editing == Some(0) && h.tasks == [a, b];
    h.HandleEditTask();
    assert |h.tasks| == 2 && h.tasks[0] == b.(title := title) && h.tasks[1] == b;
  }

  /** With the corrected click the same steps rename `b` and keep `a`. */
  method EditSecondCorrected(a: Task, b: Task, title: string) returns (h: Home)
    requires !InCell(a, b.day, b.time)
    ensures h.tasks == [a, b.(title := title)]
    ensures h.stored == Some(h.tasks)
  {
    h := new Home(Some([a, b]));
    h.Load();
    assert h.tasks == [a, b];
    TwoCells(a, b);
    h.ClickCellCorrected(b.day, b.time, 0);
    assert h.draft == b && h.editing == Some(1) && h.tasks == [a, b];
    h.HandleInputChange(Title, title);
    assert h.draft == b.(title := title) && h.editing == Some(1) && h.tasks == [a, b];
    h.HandleEditTask();
    assert |h.tasks| == 2 && h.tasks[0] == a && h.tasks[1] == b.(title := title);
  }

  /** Clicking `a` and deleting it leaves `b`, still drawn in its own cell. Here
      the cell position and the list position coincide, so the click as written
      deletes the right task. */
  method DeleteFirst(a: Task, b: Task) returns (h: Home)
    requires !InCell(a, b.day, b.time)
    ensures h.tasks == [b]
    ensures CellTasks(h.tasks, b.day, b.time) == [b] && CellTasks(h.tasks, a.day, a.time) == []
    ensures h.stored == Some(h.tasks)
  {
    h := new Home(Some([a, b]));
    h.Load();
    assert h.tasks == [a, b];
    TwoCells(a, b);
    h.ClickCell(a.day, a.time, 0);
    assert h.editing == Some(0) && h.tasks == [a, b];
    h.HandleDeleteTask();
    assert h.tasks == [a, b][1..];
    CellSingleton(b, b.day, b.time);
    CellSingleton(b, a.day, a.time);
  }

  /** As written: clicking `b` and deleting removes `a` instead. */
  method DeleteSecondAsWritten(a: Task, b: Task) returns (h: Home)
    requires !InCell(a, b.day, b.time)
    ensures h.tasks == [b]
    ensures h.stored == Some(h.tasks)
  {
    h := new Home(Some([a, b]));
    h.Load();
    assert h.tasks == [a, b];
    TwoCells(a, b);
    h.ClickCell(b.day, b.time, 0);
    assert h.editing == Some(0) && h.tasks == [a, b];
    h.HandleDeleteTask();
    assert h.tasks == [a, b][1..];
  }

  /** With the corrected click, deleting `b` leaves `a`. */
  method DeleteSecondCorrected(a: Task, b: Task) returns (h: Home)
    requires !InCell(a, b.day, b.time)
    ensures h.tasks == [a]
    ensures h.stored == Some(h.tasks)
  {
    h := new Home(Some([a, b]));
    h.Load();
    assert h.tasks == [a, b];
    TwoCells(a, b);
    h.ClickCellCorrected(b.day, b.time, 0);
    assert h.editing == Some(1) && h.tasks == [a, b];
    h.HandleDeleteTask();
    assert h.tasks == [a, b][..1];
  }
}
