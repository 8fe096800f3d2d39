/** The grid: seven day columns by twenty-four hour rows; each cell shows the
    tasks pinned to its day and hour, in list order. */
module Grid {
  import opened Tasks
  import opened Calendar

  /** The filter test of a cell: same day label and same hour label. */
  predicate InCell(t: Task, day: string, hour: string)
  {
    t.day == day && t.time == hour
  }

  /** A task whose day and hour are labels of the two tables. */
  predicate Slotted(t: Task)
  {
    t.day in DaysOfWeek && t.time in HoursOfDay()
  }

  /** The buttons of cell (`day`, `hour`): the tasks with that day and that
      hour, kept in list order. */
  function CellTasks(tasks: seq<Task>, day: string, hour: string): (r: seq<Task>)
    ensures |r| <= |tasks|
    decreases |tasks|
  {
    if tasks == [] then []
    else
      var last := tasks[|tasks| - 1];
      CellTasks(tasks[..|tasks| - 1], day, hour) + (if InCell(last, day, hour) then [last] else [])
  }

  /** The list positions of the tasks a cell shows: entry `k` is the global index
      of the task drawn as the cell's `k`-th button. */
  function CellIndices(tasks: seq<Task>, day: string, hour: string): (r: seq<nat>)
    ensures |r| == |CellTasks(tasks, day, hour)|
    ensures forall k :: 0 <= k < |r| ==>
      r[k] < |tasks| && InCell(tasks[r[k]], day, hour) && tasks[r[k]] == CellTasks(tasks, day, hour)[k]
    ensures forall k, l :: 0 <= k < l < |r| ==> r[k] < r[l]
    decreases |tasks|
  {
    if tasks == [] then []
    else
      var n := |tasks| - 1;
      CellIndices(tasks[..n], day, hour) + (if InCell(tasks[n], day, hour) then [n] else [])
  }

  /** Every button of a cell shows a task with the cell's day and hour. */
  lemma CellTasksMatch(tasks: seq<Task>, day: string, hour: string, k: nat)
    requires k < |CellTasks(tasks, day, hour)|
    ensures InCell(CellTasks(tasks, day, hour)[k], day, hour)
  {
    var ci := CellIndices(tasks, day, hour);
    assert tasks[ci[k]] == CellTasks(tasks, day, hour)[k];
  }

  /** Every task of the list that matches the cell is shown in it. */
  lemma {:induction false} CellIndicesComplete(tasks: seq<Task>, day: string, hour: string, i: nat)
    requires i < |tasks| && InCell(tasks[i], day, hour)
    ensures i in CellIndices(tasks, day, hour)
    decreases |tasks|
  {
    var n := |tasks| - 1;
    if i < n {
      CellIndicesComplete(tasks[..n], day, hour, i);
    }
  }

  /** A cell shows exactly the tasks with its day and hour, and no others. */
  lemma CellMembership(tasks: seq<Task>, day: string, hour: string, t: Task)
    ensures t in CellTasks(tasks, day, hour) <==> t in tasks && InCell(t, day, hour)
  {
    var c, ci := CellTasks(tasks, day, hour), CellIndices(tasks, day, hour);
    if t in c {
      var k :| 0 <= k < |c| && c[k] == t;
      assert tasks[ci[k]] == t;
    }
    if t in tasks && InCell(t, day, hour) {
      var i :| 0 <= i < |tasks| && tasks[i] == t;
      CellIndicesComplete(tasks, day, hour, i);
      var k :| 0 <= k < |ci| && ci[k] == i;
      assert c[k] == t;
    }
  }

  /** Filtering distributes over concatenation: list order is kept. */
  lemma {:induction false} CellConcat(a: seq<Task>, b: seq<Task>, day: string, hour: string)
    ensures CellTasks(a + b, day, hour) == CellTasks(a, day, hour) + CellTasks(b, day, hour)
    decreases |b|
  {
    if b == [] {
      assert a + b == a;
    } else {
      var n := |b| - 1;
      assert (a + b)[..|a + b| - 1] == a + b[..n];
      CellConcat(a, b[..n], day, hour);
    }
  }

  /** The cells of a one-element list. */
  lemma CellSingleton(t: Task, day: string, hour: string)
    ensures CellTasks([t], day, hour) == if InCell(t, day, hour) then [t] else []
  {
    assert [t][..0] == [];
  }

  /** A slotted task at position `i` appears in the cell of its own day and hour,
      which is a cell of the grid, and in no other cell. */
  lemma ExactlyOneCell(tasks: seq<Task>, i: nat)
    requires i < |tasks| && Slotted(tasks[i])
    ensures tasks[i].day in DaysOfWeek && tasks[i].time in HoursOfDay()
    ensures i in CellIndices(tasks, tasks[i].day, tasks[i].time)
    ensures forall day, hour :: i in CellIndices(tasks, day, hour) ==>
      day == tasks[i].day && hour == tasks[i].time
  {
    CellIndicesComplete(tasks, tasks[i].day, tasks[i].time, i);
    forall day, hour | i in CellIndices(tasks, day, hour)
      ensures day == tasks[i].day && hour == tasks[i].time
    {
      var ci := CellIndices(tasks, day, hour);
      var k :| 0 <= k < |ci| && ci[k] == i;
    }
  }

  /** The number of buttons drawn in one day column, over the given hour rows. */
  function CountColumn(tasks: seq<Task>, day: string, hours: seq<string>): nat
    decreases |hours|
  {
    if hours == [] then 0 else |CellTasks(tasks, day, hours[0])| + CountColumn(tasks, day, hours[1..])
  }

  /** The number of buttons drawn in the whole grid. */
  function CountGrid(tasks: seq<Task>, days: seq<string>, hours: seq<string>): nat
    decreases |days|
  {
    if days == [] then 0 else CountColumn(tasks, days[0], hours) + CountGrid(tasks, days[1..], hours)
  }

  lemma {:induction false} CountColumnEmpty(day: string, hours: seq<string>)
    ensures CountColumn([], day, hours) == 0
    decreases |hours|
  {
    if hours != [] {
      CountColumnEmpty(day, hours[1..]);
    }
  }

  lemma {:induction false} CountGridEmpty(days: seq<string>, hours: seq<string>)
    ensures CountGrid([], days, hours) == 0
    decreases |days|
  {
    if days != [] {
      CountColumnEmpty(days[0], hours);
      CountGridEmpty(days[1..], hours);
    }
  }

  /** Appending a task adds one button to a column exactly when the task's hour
      is one of its (distinct) rows and its day is the column's. */
  lemma {:induction false} CountColumnAppend(s: seq<Task>, t: Task, day: string, hours: seq<string>)
    requires Distinct(hours)
    ensures CountColumn(s + [t], day, hours)
         == CountColumn(s, day, hours) + (if t.day == day && t.time in hours then 1 else 0)
    decreases |hours|
  {
    if hours != [] {
      assert (s + [t])[..|s|] == s;
      assert Distinct(hours[1..]) by {
        forall i, j | 0 <= i < j < |hours[1..]| ensures hours[1..][i] != hours[1..][j] {
          assert hours[1..][i] == hours[i + 1] && hours[1..][j] == hours[j + 1];
        }
      }
      CountColumnAppend(s, t, day, hours[1..]);
      assert t.time in hours <==> t.time == hours[0] || t.time in hours[1..];
      assert t.time == hours[0] ==> t.time !in hours[1..];
    }
  }

  /** Appending a task adds one button to the grid exactly when its day and hour
      are labels of the (distinct) tables. */
  lemma {:induction false} CountGridAppend(s: seq<Task>, t: Task, days: seq<string>, hours: seq<string>)
    requires Distinct(days) && Distinct(hours)
    ensures CountGrid(s + [t], days, hours)
         == CountGrid(s, days, hours) + (if t.day in days && t.time in hours then 1 else 0)
    decreases |days|
  {
    if days != [] {
      assert Distinct(days[1..]) by {
        forall i, j | 0 <= i < j < |days[1..]| ensures days[1..][i] != days[1..][j] {
          assert days[1..][i] == days[i + 1] && days[1..][j] == days[j + 1];
        }
      }
      CountColumnAppend(s, t, days[0], hours);
      CountGridAppend(s, t, days[1..], hours);
      assert t.day in days <==> t.day == days[0] || t.day in days[1..];
      assert t.day == days[0] ==> t.day !in days[1..];
    }
  }

  /** Over distinct day and hour labels that cover every task, the grid draws
      exactly one button per task. */
  lemma {:induction false} CountGridCovers(tasks: seq<Task>, days: seq<string>, hours: seq<string>)
    requires Distinct(days) && Distinct(hours)
    requires forall k :: 0 <= k < |tasks| ==> tasks[k].day in days && tasks[k].time in hours
    ensures CountGrid(tasks, days, hours) == |tasks|
    decreases |tasks|
  {
    if tasks == [] {
      CountGridEmpty(days, hours);
    } else {
      var n := |tasks| - 1;
      CountGridCovers(tasks[..n], days, hours);
      assert tasks == tasks[..n] + [tasks[n]];
      CountGridAppend(tasks[..n], tasks[n], days, hours);
    }
  }

  /** The cells partition the list: when every task is slotted, the 7 x 24
      grid of the two tables draws exactly one button per task. (The tables are
      passed in as `days` and `hours` so that the count is not unrolled over
      the 168 literal cells.) */
  lemma GridPartition(tasks: seq<Task>, days: seq<string>, hours: seq<string>)
    requires days == DaysOfWeek && hours == HoursOfDay()
    requires forall k :: 0 <= k < |tasks| ==> Slotted(tasks[k])
    ensures CountGrid(tasks, days, hours) == |tasks|
  {
    TablesDistinct();
    CountGridCovers(tasks, days, hours);
  }

  /** The cell indices of a prefix are a prefix of the cell indices. */
  lemma {:induction false} CellIndicesPrefix(tasks: seq<Task>, n: nat, day: string, hour: string)
    requires n <= |tasks|
    ensures |CellIndices(tasks[..n], day, hour)| <= |CellIndices(tasks, day, hour)|
    ensures CellIndices(tasks[..n], day, hour)
         == CellIndices(tasks, day, hour)[..|CellIndices(tasks[..n], day, hour)|]
    decreases |tasks| - n
  {
    if n == |tasks| {
      assert tasks[..n] == tasks;
    } else {
      var m := |tasks| - 1;
      assert tasks[..m][..n] == tasks[..n];
      CellIndicesPrefix(tasks[..m], n, day, hour);
    }
  }

  /** The `k`-th button of a cell stands for the task at global position
      `CellIndices(...)[k]`, and exactly `k` tasks of that cell precede it. */
  lemma CellPosition(tasks: seq<Task>, day: string, hour: string, k: nat)
    requires k < |CellTasks(tasks, day, hour)|
    ensures CellIndices(tasks, day, hour)[k] < |tasks|
    ensures |CellTasks(tasks[..CellIndices(tasks, day, hour)[k]], day, hour)| == k
  {
    var ci := CellIndices(tasks, day, hour);
    var g := ci[k];
    CellIndicesPrefix(tasks, g, day, hour);
    var pre := CellIndices(tasks[..g], day, hour);
    var q := |pre|;
    if q < k {
      assert ci[q] < g && tasks[..g][ci[q]] == tasks[ci[q]];
      CellIndicesComplete(tasks[..g], day, hour, ci[q]);
      assert false;
    }
  }

  /** The cells of a list split around position `g`: the buttons of the
      entries before it, the entry itself when it lies in the cell, then the
      buttons of the entries after it. */
  lemma CellSplit(tasks: seq<Task>, g: nat, day: string, hour: string)
    requires g < |tasks|
    ensures CellTasks(tasks, day, hour)
         == CellTasks(tasks[..g], day, hour)
          + (if InCell(tasks[g], day, hour) then [tasks[g]] else [])
          + CellTasks(tasks[g + 1..], day, hour)
  {
    var a, b, c := tasks[..g], [tasks[g]], tasks[g + 1..];
    assert tasks == (a + b) + c;
    CellConcat(a + b, c, day, hour);
    CellConcat(a, b, day, hour);
    CellSingleton(tasks[g], day, hour);
  }

  /** Removing position `g` from the list removes that task from the one cell it
      lies in and leaves every other cell as it was. */
  lemma RemoveFromCells(tasks: seq<Task>, g: nat, day: string, hour: string)
    requires g < |tasks|
    ensures var removed := CellTasks(tasks[..g] + tasks[g + 1..], day, hour);
            removed == CellTasks(tasks[..g], day, hour) + CellTasks(tasks[g + 1..], day, hour) &&
            (!InCell(tasks[g], day, hour) ==> removed == CellTasks(tasks, day, hour))
  {
    CellSplit(tasks, g, day, hour);
    CellConcat(tasks[..g], tasks[g + 1..], day, hour);
  }

  /** For the `k`-th button of a cell: removing the task it stands for takes out
      exactly that button and no button of any other cell. */
  lemma RemoveClicked(tasks: seq<Task>, day: string, hour: string, k: nat, day': string, hour': string)
    requires k < |CellTasks(tasks, day, hour)|
    ensures var g := CellIndices(tasks, day, hour)[k];
            var c := CellTasks(tasks, day, hour);
            g < |tasks| &&
            CellTasks(tasks[..g] + tasks[g + 1..], day, hour) == c[..k] + c[k + 1..] &&
            ((day', hour') != (day, hour) ==>
              CellTasks(tasks[..g] + tasks[g + 1..], day', hour') == CellTasks(tasks, day', hour'))
  {
    var g := CellIndices(tasks, day, hour)[k];
    var c := CellTasks(tasks, day, hour);
    CellPosition(tasks, day, hour, k);
    CellSplit(tasks, g, day, hour);
    RemoveFromCells(tasks, g, day, hour);
    RemoveFromCells(tasks, g, day', hour');
    var pre, post := CellTasks(tasks[..g], day, hour), CellTasks(tasks[g + 1..], day, hour);
    assert InCell(tasks[g], day, hour);
    assert c == pre + [tasks[g]] + post;
    assert c[..k] == pre && c[k + 1..] == post;
  }

  /** Appending a task draws it as the last button of its own cell; every other
      cell is unchanged. */
  lemma AppendToCells(tasks: seq<Task>, t: Task, day: string, hour: string)
    ensures CellTasks(tasks + [t], day, hour)
         == CellTasks(tasks, day, hour) + (if InCell(t, day, hour) then [t] else [])
  {
    CellConcat(tasks, [t], day, hour);
    CellSingleton(t, day, hour);
  }

  /** Overwriting position `g` changes only the cell of the old task and the
      cell of the new one: the buttons before and after position `g` stay, and
      the new task is drawn between them in its own cell. */
  lemma ReplaceInCells(tasks: seq<Task>, g: nat, t: Task, day: string, hour: string)
    requires g < |tasks|
    ensures var pre, post := CellTasks(tasks[..g], day, hour), CellTasks(tasks[g + 1..], day, hour);
            CellTasks(tasks[g := t], day, hour) == pre + (if InCell(t, day, hour) then [t] else []) + post
    ensures !InCell(tasks[g], day, hour) && !InCell(t, day, hour) ==>
            CellTasks(tasks[g := t], day, hour) == CellTasks(tasks, day, hour)
  {
    var u := tasks[g := t];
    assert u[..g] == tasks[..g] && u[g + 1..] == tasks[g + 1..] && u[g] == t;
    CellSplit(tasks, g, day, hour);
    CellSplit(u, g, day, hour);
  }
}
