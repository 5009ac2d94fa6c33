/**
 `renderTaskList` (app.js:44-76) as a pure projection from the tasks of a
 list reply to the entries the page shows. The DOM nodes are reduced to
 what a user can see or do with them: the completed style, the read-only
 checkbox, the label, and the delete button's bound arguments.
 */
module Render {
  import opened JsValues
  import Format

  /** A task record as the list reply delivers it. `deadline` is None when
      the field is null or absent. */
  datatype Task = Task(id: Value, title: string, priority: int,
                       deadline: Option<string>, completed: bool)

  /** The arguments a delete button passes to `handleDelete`. */
  datatype DeleteTarget = DeleteTarget(id: Value, title: string)

  /** One list item: the empty-list placeholder, or a task row. */
  datatype Entry =
    | Placeholder(text: string)
    | Row(completedStyle: bool, checked: bool, checkboxDisabled: bool,
          caption: string, onDelete: DeleteTarget)

  const NoTasksText: string := "\U{1F389} No tasks yet!"
  const PriorityPart: string := " (Priority: "
  const DeadlinePart: string := ") Deadline: "

  /** `task.deadline || "None"`: a missing or empty deadline shows as None. */
  function DeadlineText(deadline: Option<string>): (r: string)
    ensures r == "None" <==> deadline == None || deadline == Some("") || deadline == Some("None")
    ensures deadline.Some? && deadline.value != [] ==> r == deadline.value
  {
    if deadline.Some? && deadline.value != [] then deadline.value else "None"
  }

  /** The row text `{title} (Priority: {priority}) Deadline: {deadline}`. */
  function Label(t: Task): string {
    t.title + PriorityPart + Format.IntToString(t.priority) + DeadlinePart + DeadlineText(t.deadline)
  }

  /** The row for one task: styled and checked exactly when completed, the
      checkbox never editable, the text the task's label (laid out as
      LabelLayout states), the delete button bound to the task. */
  function RowOf(t: Task): (e: Entry)
    ensures e.Row? && e.checkboxDisabled
    ensures e.completedStyle == e.checked == t.completed
    ensures e.caption == Label(t)
    ensures e.onDelete.id == t.id && e.onDelete.title == t.title
  {
    Row(t.completed, t.completed, true, Label(t), DeleteTarget(t.id, t.title))
  }

  /** One row per task, in the order given. */
  function Rows(tasks: seq<Task>): (r: seq<Entry>)
    ensures |r| == |tasks|
    ensures forall i :: 0 <= i < |r| ==> r[i] == RowOf(tasks[i])
  {
    seq(|tasks|, i requires 0 <= i < |tasks| => RowOf(tasks[i]))
  }

  /** `renderTaskList(tasks)`: a lone placeholder for no tasks, otherwise
      one task row per task in reply order and nothing else. */
  function RenderTaskList(tasks: seq<Task>): (r: seq<Entry>)
    ensures tasks == [] <==> r == [Placeholder(NoTasksText)]
    ensures tasks != [] ==> |r| == |tasks| && forall i :: 0 <= i < |r| ==> r[i] == RowOf(tasks[i])
  {
    if tasks == [] then [Placeholder(NoTasksText)]
    else
      assert Rows(tasks)[0].Row?;
      Rows(tasks)
  }

  /** The delete actions a rendered list offers, top to bottom. */
  function DeleteTargets(entries: seq<Entry>): seq<DeleteTarget> {
    if entries == [] then []
    else (if entries[0].Row? then [entries[0].onDelete] else []) + DeleteTargets(entries[1..])
  }

  /** Each task's own (id, title) pair, in order. */
  function TargetsOf(tasks: seq<Task>): (r: seq<DeleteTarget>)
    ensures |r| == |tasks|
    ensures forall i :: 0 <= i < |r| ==> r[i] == DeleteTarget(tasks[i].id, tasks[i].title)
  {
    if tasks == [] then [] else [DeleteTarget(tasks[0].id, tasks[0].title)] + TargetsOf(tasks[1..])
  }

  /** An empty list shows one placeholder and offers no delete action. */
  lemma EmptyListPlaceholder()
    ensures |RenderTaskList([])| == 1 && RenderTaskList([])[0].Placeholder?
    ensures DeleteTargets(RenderTaskList([])) == []
  {
    assert RenderTaskList([])[1..] == [];
  }

  /** Every delete action of the rendered rows is bound to its own task, in
      task order: one per task, none extra. */
  lemma {:induction false} RowsTargets(tasks: seq<Task>)
    ensures DeleteTargets(Rows(tasks)) == TargetsOf(tasks)
  {
    if tasks != [] {
      assert Rows(tasks)[1..] == Rows(tasks[1..]);
      RowsTargets(tasks[1..]);
    }
  }

  /** The delete actions of any rendered list are exactly its tasks' ids and
      titles in order (none for the empty list). */
  lemma RenderedTargets(tasks: seq<Task>)
    ensures DeleteTargets(RenderTaskList(tasks)) == TargetsOf(tasks)
  {
    if tasks == [] {
      EmptyListPlaceholder();
    } else {
      RowsTargets(tasks);
    }
  }

  /** Rendering a longer reply renders each part: the rows of `a + b` are
      the rows of `a` followed by those of `b`. */
  lemma {:induction false} RowsAppend(a: seq<Task>, b: seq<Task>)
    ensures Rows(a + b) == Rows(a) + Rows(b)
  {
    if a != [] {
      assert (a + b)[1..] == a[1..] + b;
      RowsAppend(a[1..], b);
    }
  }

  /** The label starts with the title, then the priority text whose decimal
      value is the priority, then the deadline text; so the priority and the
      deadline shown are the task's own. */
  lemma LabelLayout(t: Task)
    ensures var l := Label(t);
      var p := Format.IntToString(t.priority);
      var n := |t.title| + |PriorityPart|;
      && |l| == n + |p| + |DeadlinePart| + |DeadlineText(t.deadline)|
      && l[..|t.title|] == t.title
      && l[|t.title|..n] == PriorityPart
      && l[n..n + |p|] == p
      && Format.Value(l[n..n + |p|]) == t.priority
      && l[n + |p|..n + |p| + |DeadlinePart|] == DeadlinePart
      && l[n + |p| + |DeadlinePart|..] == DeadlineText(t.deadline)
  {
    Format.IntToStringValue(t.priority);
    FiveParts(t.title, PriorityPart, Format.IntToString(t.priority), DeadlinePart, DeadlineText(t.deadline));
  }

  /** Slicing a concatenation of five strings at the part boundaries gives
      back each part. */
  lemma FiveParts(a: string, b: string, c: string, d: string, e: string)
    ensures var l := a + b + c + d + e;
      var i, j, k := |a| + |b|, |a| + |b| + |c|, |a| + |b| + |c| + |d|;
      && |l| == k + |e|
      && l[..|a|] == a && l[|a|..i] == b && l[i..j] == c && l[j..k] == d && l[k..] == e
  {
  }

  /** The one-task reply `[{id: 1, title: "A", priority: 1, deadline: null,
      completed: false}]` renders one unchecked row labelled
      "A (Priority: 1) Deadline: None" whose delete button targets id 1. */
  lemma OneTaskExample()
    ensures var r := RenderTaskList([Task(Num(Finite(1.0)), "A", 1, None, false)]);
      && |r| == 1 && r[0].Row? && !r[0].checked
      && r[0].caption == "A (Priority: 1) Deadline: None"
      && DeleteTargets(r) == [DeleteTarget(Num(Finite(1.0)), "A")]
  {
    var t := Task(Num(Finite(1.0)), "A", 1, None, false);
    OneTaskLabel();
    assert RenderTaskList([t]) == [RowOf(t)];
    RenderedTargets([t]);
  }

  /** The label of the one-task example. */
  lemma OneTaskLabel()
    ensures Label(Task(Num(Finite(1.0)), "A", 1, None, false)) == "A (Priority: 1) Deadline: None"
  {
    assert Format.IntToString(1) == "1";
  }
}
