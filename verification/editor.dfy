/**
 * The single-page schedule editor: its store is the pair (tasks, selected
 * rows), and every user action (a table or chart click, a button, the
 * dataset selector, the Mermaid import) maps the current pair to a new one.
 * Each branch copies the task list and then changes the copy, as the page
 * does; a branch whose index lookup would fail keeps the store as it was.
 */
module Editor {
  import opened Wrappers
  import opened Text
  import Gantt

  /** A row of the editor's task list. */
  datatype Task = Task(
    id: string, section: string, name: string, start: string, end: string,
    nextTo: string, doc: string, action: string, lesson: string)

  /** The editor's form inputs; an empty or absent input is "". */
  datatype Form = Form(
    section: string, name: string, start: string, end: string,
    nextTo: string, doc: string, action: string, lesson: string)

  /** The record the form describes, under the given id. */
  function FormTask(form: Form, id: string): Task {
    Task(id, form.section, form.name, form.start, form.end, form.nextTo, form.doc, form.action, form.lesson)
  }

  predicate SelectionInRange(tasks: seq<Task>, rows: seq<nat>) {
    forall j :: 0 <= j < |rows| ==> rows[j] < |tasks|
  }

  // ---------------------------------------------------------------------
  // Buttons
  // ---------------------------------------------------------------------

  /** The add button: with a section and a task name filled in, appends the
      form's record under the fresh id and clears the selection; otherwise
      nothing changes. */
  method Add(tasks: seq<Task>, rows: seq<nat>, form: Form, newId: string) returns (newTasks: seq<Task>, newRows: seq<nat>)
    ensures form.section != "" && form.name != "" ==>
      && |newTasks| == |tasks| + 1
      && newTasks[..|tasks|] == tasks
      && newTasks[|tasks|] == FormTask(form, newId)
      && newTasks == tasks + [FormTask(form, newId)]
      && newRows == []
    ensures form.section == "" || form.name == "" ==> newTasks == tasks && newRows == rows
  {
    newTasks := tasks;
    if form.section != "" && form.name != "" {
      newTasks := newTasks + [FormTask(form, newId)];
      newRows := [];
      assert newTasks[..|tasks|] == tasks;
    } else {
      newRows := rows;
    }
  }

  /** The update button: the selected row takes the form's values and keeps
      its id; every other row, the length and the selection stay. */
  method Update(tasks: seq<Task>, rows: seq<nat>, form: Form) returns (newTasks: seq<Task>, newRows: seq<nat>)
    ensures |rows| > 0 && rows[0] < |tasks| ==>
      && |newTasks| == |tasks|
      && newTasks[rows[0]] == FormTask(form, tasks[rows[0]].id)
      && (forall j :: 0 <= j < |tasks| && j != rows[0] ==> newTasks[j] == tasks[j])
      && newTasks == tasks[rows[0] := FormTask(form, tasks[rows[0]].id)]
    ensures !(|rows| > 0 && rows[0] < |tasks|) ==> newTasks == tasks
    ensures newRows == rows
  {
    newTasks := tasks;
    newRows := rows;
    if |rows| > 0 && rows[0] < |newTasks| {
      var idx := rows[0];
      newTasks := newTasks[idx := FormTask(form, newTasks[idx].id)];
    }
  }

  /** The delete button: removes exactly the selected row, keeps the others
      in their order and clears the selection. */
  method Delete(tasks: seq<Task>, rows: seq<nat>) returns (newTasks: seq<Task>, newRows: seq<nat>)
    ensures |rows| > 0 && rows[0] < |tasks| ==>
      && |newTasks| == |tasks| - 1
      && (forall j :: 0 <= j < rows[0] ==> newTasks[j] == tasks[j])
      && (forall j :: rows[0] <= j < |newTasks| ==> newTasks[j] == tasks[j + 1])
      && multiset(newTasks) + multiset{tasks[rows[0]]} == multiset(tasks)
      && newTasks == tasks[..rows[0]] + tasks[rows[0] + 1..]
      && newRows == []
    ensures !(|rows| > 0 && rows[0] < |tasks|) ==> newTasks == tasks && newRows == rows
  {
    newTasks := tasks;
    newRows := rows;
    if |rows| > 0 && rows[0] < |newTasks| {
      var idx := rows[0];
      assert newTasks == newTasks[..idx] + [newTasks[idx]] + newTasks[idx + 1..];
      newTasks := newTasks[..idx] + newTasks[idx + 1..];
      newRows := [];
    }
  }

  /** The list with the rows at i and j exchanged. */
  predicate Swapped(tasks: seq<Task>, newTasks: seq<Task>, i: nat, j: nat)
    requires i < |tasks| && j < |tasks|
  {
    && |newTasks| == |tasks|
    && newTasks[i] == tasks[j] && newTasks[j] == tasks[i]
    && (forall k :: 0 <= k < |tasks| && k != i && k != j ==> newTasks[k] == tasks[k])
  }

  /** The up button: swaps the selected row with the one above it and moves
      the selection with it; at the top nothing changes. */
  method MoveUp(tasks: seq<Task>, rows: seq<nat>) returns (newTasks: seq<Task>, newRows: seq<nat>)
    ensures |rows| > 0 && 0 < rows[0] < |tasks| ==>
      && Swapped(tasks, newTasks, rows[0], rows[0] - 1)
      && multiset(newTasks) == multiset(tasks)
      && newRows == [rows[0] - 1]
      && newTasks[newRows[0]] == tasks[rows[0]]
    ensures !(|rows| > 0 && 0 < rows[0] < |tasks|) ==> newTasks == tasks && newRows == rows
  {
    newTasks := tasks;
    newRows := rows;
    if |rows| > 0 && 0 < rows[0] < |newTasks| {
      var idx := rows[0];
      newTasks := newTasks[idx := newTasks[idx - 1]][idx - 1 := newTasks[idx]];
      newRows := [idx - 1];
    }
  }

  /** The down button: swaps the selected row with the one below it and moves
      the selection with it; at the bottom nothing changes. */
  method MoveDown(tasks: seq<Task>, rows: seq<nat>) returns (newTasks: seq<Task>, newRows: seq<nat>)
    ensures |rows| > 0 && rows[0] + 1 < |tasks| ==>
      && Swapped(tasks, newTasks, rows[0], rows[0] + 1)
      && multiset(newTasks) == multiset(tasks)
      && newRows == [rows[0] + 1]
      && newTasks[newRows[0]] == tasks[rows[0]]
    ensures !(|rows| > 0 && rows[0] + 1 < |tasks|) ==> newTasks == tasks && newRows == rows
  {
    newTasks := tasks;
    newRows := rows;
    if |rows| > 0 && rows[0] + 1 < |newTasks| {
      var idx := rows[0];
      newTasks := newTasks[idx := newTasks[idx + 1]][idx + 1 := newTasks[idx]];
      newRows := [idx + 1];
    }
  }

  // ---------------------------------------------------------------------
  // Clicks
  // ---------------------------------------------------------------------

  /** The list in the order the chart plots it, bottom to top. */
  function Reversed(tasks: seq<Task>): (r: seq<Task>)
    ensures |r| == |tasks|
    ensures forall i :: 0 <= i < |tasks| ==> r[i] == tasks[|tasks| - 1 - i]
  {
    if |tasks| == 0 then [] else Reversed(tasks[1..]) + [tasks[0]]
  }

  /** A chart click at height y selects the row plotted there, when there is
      one; otherwise the selection stays. */
  method ChartClick(tasks: seq<Task>, rows: seq<nat>, y: int) returns (newRows: seq<nat>)
    ensures 0 <= y < |tasks| ==> newRows == [|tasks| - 1 - y] && tasks[newRows[0]] == Reversed(tasks)[y]
    ensures !(0 <= y < |tasks|) ==> newRows == rows
  {
    var idx := |tasks| - 1 - y;
    if 0 <= idx < |tasks| {
      newRows := [idx];
    } else {
      newRows := rows;
    }
  }

  // ---------------------------------------------------------------------
  // Mermaid export and import
  // ---------------------------------------------------------------------

  function EntryOf(t: Task): Gantt.Entry {
    Gantt.Entry(t.id, t.section, t.name, t.start, t.end)
  }

  function Entries(tasks: seq<Task>): (r: seq<Gantt.Entry>)
    ensures |r| == |tasks| && forall i :: 0 <= i < |tasks| ==> r[i] == EntryOf(tasks[i])
  {
    seq(|tasks|, i requires 0 <= i < |tasks| => EntryOf(tasks[i]))
  }

  /** An imported task: the entry's fields, and nothing else filled in. */
  function TaskOfEntry(e: Gantt.Entry): Task {
    Task(e.id, e.section, e.name, e.start, e.end, "", "", "", "")
  }

  function TasksOf(entries: seq<Gantt.Entry>): (r: seq<Task>)
    ensures |r| == |entries| && forall i :: 0 <= i < |entries| ==> r[i] == TaskOfEntry(entries[i])
  {
    seq(|entries|, i requires 0 <= i < |entries| => TaskOfEntry(entries[i]))
  }

  /** The Mermaid text the page shows beside the chart: nothing for an empty
      list, else the gantt definition of the list. */
  method MermaidView(tasks: seq<Task>) returns (text: string)
    ensures tasks == [] ==> text == ""
    ensures tasks != [] ==> text == Gantt.GanttText(Entries(tasks))
  {
    if |tasks| == 0 {
      text := "";
    } else {
      text := Gantt.EmitGantt(Entries(tasks));
    }
  }

  lemma ParseFromStep(st: Gantt.ParseState, lines: seq<string>, i: nat)
    requires i < |lines|
    ensures Gantt.ParseFrom(st, lines[i..]) == Gantt.ParseFrom(Gantt.ParseLine(st, lines[i]), lines[i + 1..])
  {
    assert lines[i..][1..] == lines[i + 1..];
  }

  /** Reads a Mermaid gantt definition line by line. */
  method ReadGantt(code: string) returns (parsed: seq<Gantt.Entry>)
    ensures parsed == Gantt.ImportEntries(code)
  {
    var lines := Split(code, '\n');
    var section := "Default";
    var count: nat := 1;
    parsed := [];
    for i := 0 to |lines|
      invariant Gantt.ParseFrom(Gantt.ParseState(section, count, parsed), lines[i..]) == Gantt.ParseFrom(Gantt.Start, lines)
    {
      ParseFromStep(Gantt.ParseState(section, count, parsed), lines, i);
      var line := Strip(lines[i]);
      if StartsWith(line, "section") {
        section := Strip(RemoveAll(line, "section"));
      } else if ':' in line {
        var task := Gantt.TaskOf(line, section, count);
        if task.Some? {
          parsed := parsed + [task.value];
          count := count + 1;
        }
      }
    }
    assert lines[|lines|..] == [];
  }

  /** The import button: the tasks read from the Mermaid text replace the
      list and clear the selection; text holding no task changes nothing. */
  method Import(tasks: seq<Task>, rows: seq<nat>, code: string) returns (newTasks: seq<Task>, newRows: seq<nat>)
    ensures Gantt.ImportEntries(code) != [] ==> newTasks == TasksOf(Gantt.ImportEntries(code)) && newRows == []
    ensures Gantt.ImportEntries(code) == [] ==> newTasks == tasks && newRows == rows
  {
    var parsed := ReadGantt(code);
    if |parsed| > 0 {
      newTasks := TasksOf(parsed);
      newRows := [];
    } else {
      newTasks := tasks;
      newRows := rows;
    }
  }

  /** Importing the gantt text of the tasks (the Mermaid text the page shows
      for a non-empty list) gives back every task's id,
      section, name, start and end in order, with the other fields emptied,
      when each task's entry satisfies the emitter's round-trip conditions. */
  lemma ViewThenImport(tasks: seq<Task>)
    requires forall i :: 0 <= i < |tasks| ==> Gantt.RoundTrips(EntryOf(tasks[i]))
    ensures Entries(TasksOf(Gantt.ImportEntries(Gantt.GanttText(Entries(tasks))))) == Entries(tasks)
    ensures forall t :: t in TasksOf(Gantt.ImportEntries(Gantt.GanttText(Entries(tasks)))) ==>
      t.nextTo == "" && t.doc == "" && t.action == "" && t.lesson == ""
  {
    Gantt.ImportEmitted(Entries(tasks));
    var back := TasksOf(Entries(tasks));
    assert Entries(back) == Entries(tasks);
  }

  // ---------------------------------------------------------------------
  // The store
  // ---------------------------------------------------------------------

  /** What fired the store's update. */
  datatype Trigger =
    | NoTrigger
    | DatasetChoice(choice: string)
    | TableClick(activeRow: Option<nat>)
    /** The clicked point's y, after int(); a point without y counts as 0,
        and None stands for click data without points or a y that is not a
        number. */
    | GanttClick(y: Option<int>)
    | ParseButton
    | AddButton
    | UpdateButton
    | DeleteButton
    | UpButton
    | DownButton

  /** The store's update for one trigger: each trigger has the effect of
      its branch, clicks and an empty trigger never change the list, and
      every trigger but a table click keeps an in-range selection in range. */
  method UpdateStore(
    trigger: Trigger, tasks: seq<Task>, rows: seq<nat>, form: Form, code: string,
    newId: string, currentTasks: seq<Task>, pastTasks: seq<Task>)
    returns (newTasks: seq<Task>, newRows: seq<nat>)
    ensures trigger.NoTrigger? ==> newTasks == tasks && newRows == rows
    ensures trigger.DatasetChoice? ==> newTasks == (if trigger.choice == "past" then pastTasks else currentTasks) && newRows == []
    ensures trigger.TableClick? || trigger.GanttClick? ==> newTasks == tasks
    ensures trigger.TableClick? && trigger.activeRow.Some? ==> newRows == [trigger.activeRow.value]
    ensures trigger.TableClick? && trigger.activeRow.None? ==> newRows == rows
    ensures trigger.GanttClick? && trigger.y.Some? ==>
      var y := trigger.y.value;
      && (0 <= y < |tasks| ==> newRows == [|tasks| - 1 - y] && tasks[newRows[0]] == Reversed(tasks)[y])
      && (!(0 <= y < |tasks|) ==> newRows == rows)
    ensures trigger.GanttClick? && trigger.y.None? ==> newRows == rows
    ensures trigger.ParseButton? ==>
      && (Gantt.ImportEntries(code) != [] ==> newTasks == TasksOf(Gantt.ImportEntries(code)) && newRows == [])
      && (Gantt.ImportEntries(code) == [] ==> newTasks == tasks && newRows == rows)
    ensures trigger.AddButton? ==>
      && (form.section != "" && form.name != "" ==> newTasks == tasks + [FormTask(form, newId)] && newRows == [])
      && (form.section == "" || form.name == "" ==> newTasks == tasks && newRows == rows)
    ensures trigger.UpdateButton? ==>
      && newRows == rows
      && (|rows| > 0 && rows[0] < |tasks| ==> newTasks == tasks[rows[0] := FormTask(form, tasks[rows[0]].id)])
      && (!(|rows| > 0 && rows[0] < |tasks|) ==> newTasks == tasks)
    ensures trigger.DeleteButton? ==>
      && (|rows| > 0 && rows[0] < |tasks| ==> newTasks == tasks[..rows[0]] + tasks[rows[0] + 1..] && newRows == [])
      && (!(|rows| > 0 && rows[0] < |tasks|) ==> newTasks == tasks && newRows == rows)
    ensures trigger.UpButton? ==>
      && (|rows| > 0 && 0 < rows[0] < |tasks| ==> Swapped(tasks, newTasks, rows[0], rows[0] - 1) && newRows == [rows[0] - 1])
      && (!(|rows| > 0 && 0 < rows[0] < |tasks|) ==> newTasks == tasks && newRows == rows)
    ensures trigger.DownButton? ==>
      && (|rows| > 0 && rows[0] + 1 < |tasks| ==> Swapped(tasks, newTasks, rows[0], rows[0] + 1) && newRows == [rows[0] + 1])
      && (!(|rows| > 0 && rows[0] + 1 < |tasks|) ==> newTasks == tasks && newRows == rows)
    ensures !trigger.TableClick? && SelectionInRange(tasks, rows) ==> SelectionInRange(newTasks, newRows)
  {
    match trigger
    case NoTrigger =>
      newTasks, newRows := tasks, rows;
    case DatasetChoice(choice) =>
      newTasks := if choice == "past" then pastTasks else currentTasks;
      newRows := [];
    case TableClick(activeRow) =>
      newTasks := tasks;
      newRows := if activeRow.Some? then [activeRow.value] else rows;
    case GanttClick(y) =>
      newTasks := tasks;
      if y.Some? {
        newRows := ChartClick(tasks, rows, y.value);
      } else {
        newRows := rows;
      }
    case ParseButton =>
      newTasks, newRows := Import(tasks, rows, code);
    case AddButton =>
      newTasks, newRows := Add(tasks, rows, form, newId);
    case UpdateButton =>
      newTasks, newRows := Update(tasks, rows, form);
    case DeleteButton =>
      newTasks, newRows := Delete(tasks, rows);
    case UpButton =>
      newTasks, newRows := MoveUp(tasks, rows);
    case DownButton =>
      newTasks, newRows := MoveDown(tasks, rows);
  }
}
