/**
  The Gantt chart under the canvas (src/components/GanttChart.js): one bar
  per task, a transparent stretch up to the task's start followed by its
  duration in the colour of the first group listing it, on an axis that runs
  from 0 to the latest end (at least 1).
*/
module Gantt {
  import opened Wrappers
  import opened Sequences
  import opened Schedule
  import opened Edits
  import Sidebar

  /** The fill of a bar whose task has no group, or a group without a colour. */
  const DefaultFill: string := "#82ca9d"

  /** One entry of `chartData`. */
  datatype Row = Row(name: string, start: nat, duration: nat, group: Option<Group>)

  function RowOf(task: Task, groups: seq<Group>): Row
  {
    Row(task.name, task.startTime, task.duration, GroupOf(groups, task.id))
  }

  /** `tasks.map(task => ({ name, start: task.startTime || 0, duration, group }))`. */
  function ChartData(tasks: seq<Task>, groups: seq<Group>): (r: seq<Row>)
    ensures |r| == |tasks| && forall i :: 0 <= i < |r| ==> r[i] == RowOf(tasks[i], groups)
  {
    seq(|tasks|, i requires 0 <= i < |tasks| => RowOf(tasks[i], groups))
  }

  /**
    Each row shows its task: the task's name, a bar from its start time to
    its start time plus its duration, and a group exactly when some group
    lists the task.
  */
  lemma RowShowsTask(tasks: seq<Task>, groups: seq<Group>, i: nat)
    requires i < |tasks|
    ensures var row := ChartData(tasks, groups)[i];
      && row.name == tasks[i].name && row.start == tasks[i].startTime && row.duration == tasks[i].duration
      && End(row) == tasks[i].startTime + tasks[i].duration
      && (row.group.Some? <==> exists j :: 0 <= j < |groups| && tasks[i].id in groups[j].taskIds)
  {
  }

  /** Where a bar ends: `start + duration`. */
  function End(row: Row): nat
  {
    row.start + row.duration
  }

  /** `Math.max(...chartData.map(task => task.start + task.duration), 1)`: the length of the axis. */
  function TotalDuration(rows: seq<Row>): (total: nat)
    ensures total >= 1
    ensures forall i :: 0 <= i < |rows| ==> End(rows[i]) <= total
    ensures total == 1 || exists i :: 0 <= i < |rows| && End(rows[i]) == total
  {
    var ends := seq(|rows|, i requires 0 <= i < |rows| => End(rows[i])) + [1];
    var total := MaxOf(ends);
    assert forall i :: 0 <= i < |rows| ==> ends[i] == End(rows[i]);
    assert ends[|rows|] == 1;
    total
  }

  /** The chart for a task list: nothing ("No tasks to display") for an empty one, else its rows and axis length. */
  function Chart(tasks: seq<Task>, groups: seq<Group>): (r: Option<(seq<Row>, nat)>)
    ensures r.None? <==> tasks == []
    ensures r.Some? ==> |r.value.0| == |tasks| && r.value.1 >= 1
    ensures r.Some? ==> forall i :: 0 <= i < |tasks| ==> End(r.value.0[i]) <= r.value.1
  {
    if tasks == [] then None
    else
      var rows := ChartData(tasks, groups);
      Some((rows, TotalDuration(rows)))
  }

  /** `entry.group && entry.group.color ? entry.group.color : '#82ca9d'`; an empty colour counts as none. */
  function BarColor(row: Row): (fill: string)
    ensures fill != ""
    ensures fill == DefaultFill || (row.group.Some? && fill == row.group.value.color)
  {
    if row.group.Some? && row.group.value.color != "" then row.group.value.color else DefaultFill
  }

  // ---------------------------------------------------------------------------
  // What the chart shows

  /**
    A bar takes the colour of the first group listing its task when that
    group has one, and the default fill when no group lists the task.
  */
  lemma BarColorOfGroup(tasks: seq<Task>, groups: seq<Group>, i: nat)
    requires i < |tasks|
    ensures var fill := BarColor(ChartData(tasks, groups)[i]);
      && ((forall j | 0 <= j < |groups| :: tasks[i].id !in groups[j].taskIds) ==> fill == DefaultFill)
      && (forall j | 0 <= j < |groups| && tasks[i].id in groups[j].taskIds && groups[j].color != "" ::
            (forall k | 0 <= k < j :: tasks[i].id !in groups[k].taskIds) ==> fill == groups[j].color)
  {
    var g := GroupOf(groups, tasks[i].id);
    if g.Some? {
      var j0 :| 0 <= j0 < |groups| && groups[j0] == g.value && tasks[i].id in g.value.taskIds &&
        forall k :: 0 <= k < j0 ==> tasks[i].id !in groups[k].taskIds;
    }
  }

  /**
    After the sidebar drops a task on a group with a colour, the task's bar
    takes that colour when no earlier group shares the id; dropped on
    "Ungrouped Tasks" it takes the default fill.
  */
  lemma DroppedBarColor(tasks: seq<Task>, before: seq<Group>, after: seq<Group>, groupId: string, i: nat)
    requires i < |tasks| && Sidebar.Moved(before, after, tasks[i].id, groupId)
    ensures groupId == "ungrouped" ==> BarColor(ChartData(tasks, after)[i]) == DefaultFill
    ensures forall j | 0 <= j < |after| && after[j].id == groupId && groupId != "ungrouped" && after[j].color != "" ::
      (forall k | 0 <= k < j :: after[k].id != groupId) ==> BarColor(ChartData(tasks, after)[i]) == after[j].color
  {
    var id := tasks[i].id;
    forall j | 0 <= j < |after|
      ensures id in after[j].taskIds <==> groupId != "ungrouped" && after[j].id == groupId
    {
      assert id in after[j].taskIds <==> multiset(after[j].taskIds)[id] > 0;
    }
    BarColorOfGroup(tasks, after, i);
  }

  /**
    For the tasks the engine produced, no bar starts before the bars of its
    task's dependencies end, a bar with dependencies starts where one of them
    ends, and a bar without any starts at 0.
  */
  lemma BarsFollowDependencies(source: seq<Task>, groups: seq<Group>, i: nat)
    requires Schedulable(source) && i < |Scheduled(source)|
    ensures var tasks := Scheduled(source);
      var rows := ChartData(tasks, groups);
      && (forall d | d in tasks[i].dependencies ::
            exists j :: 0 <= j < |rows| && tasks[j].id == d && End(rows[j]) <= rows[i].start)
      && (tasks[i].dependencies == [] ==> rows[i].start == 0)
      && (tasks[i].dependencies != [] ==>
            exists j :: 0 <= j < |rows| && tasks[j].id in tasks[i].dependencies && End(rows[j]) == rows[i].start)
  {
    StartTimeIsLatestFinish(source, i);
  }
}
