# Project template scheduler, modelled in Dafny

The application keeps a list of project templates. Each template holds tasks
(an id, a name, a duration in whole days and the ids of the tasks it depends
on) and groups of task ids with a name and a colour. Every change to a
template's tasks re-runs a schedule engine. The engine gives each task
two derived fields:

- `startTime`: the latest finish of its dependencies, or 0 without any;
- `level`: one more than its deepest dependency's level, or 0 without any.

A sidebar, a flow-chart canvas and a Gantt chart read and edit the store.

The model has these parts:

- `base.dfy`: an option type and sequence helpers, such as `filter`,
  `Math.max` and removing every occurrence.
- `schedule.dfy` (`Schedule`): the specification of the engine.
  - A task list behaves like the JavaScript `Map` the engine builds: the key
    order is that of first occurrence, and the value is the last task with
    the id.
  - Each derived value is a longest path, computed with the number of ids as
    fuel.
  - The engine succeeds exactly on closed, acyclic dependency graphs, and
    `Scheduled` is its output.
- `engine.dfy` (`Engine`): `calculateStartTimes` as the source runs it. A
  class holds the map of working copies. Two memoised recursions write the
  derived fields in place, driven by `forEach` loops, and the copies are
  read back in key order. The method is proved to return exactly `Scheduled`.
  Whether it fails is decided by the specification's predicate
  `Schedulable`, tested before the class is built; `Schedule.SchedulableIff`
  ties that predicate to the inputs on which the source dereferences
  `undefined` or recurses without end. The class's recursions themselves
  are only run on inputs where they finish.
- `edits.dfy` (`Edits`) and `templates.dfy` (`Templates`): what each store
  action does to one template. They cover:
  - the task-list and group-list edits;
  - which edits the engine accepts afterwards;
  - the "map over all templates with this id" step, and the `find` that
    re-selects.
- `store.dfy` (`Store`): the store as a class with `templates` and
  `selectedTemplate`. It has one method per action. An action whose engine
  run throws leaves the state unchanged, as a throwing `set` updater does.
- `sidebar.dfy` (`Sidebar`), `canvas.dfy` (`Canvas`), `gantt.dfy` (`Gantt`): the
  three components' logic.
  - The sidebar: input guards, the drag-and-drop move between groups, and
    the grouped and ungrouped task lists.
  - The canvas: edges and nodes, the layout's node-preserving shape, and the
    connect and delete handlers.
  - The Gantt chart: its rows, the axis length and the bar colour.

A dependency on an id with no task might be expected to be skipped and to
contribute nothing. The code instead throws, and the model follows the code.
The start-time pass (src/hooks/useTemplateStore.js:21) evaluates every
task's dependency list. For a missing id, `taskMap.get` returns `undefined`,
and src/hooks/useTemplateStore.js:8 dereferences it. The throw therefore
happens in the start pass, before the level pass at line 37 begins.
Likewise, a cycle recurses without end. In the model both make the engine
fail, and the store action that caused it commits nothing. One consequence:
removing a task that another task still depends on is refused (`Templates.RemoveTaskAcceptedIff`).

## Model

| member | source | states |
|---|---|---|
| Schedule.SchedulableIff | src/hooks/useTemplateStore.js:6-37 | the engine's recursions finish for every id exactly when every dependency names a task of the list and the dependency graph has no cycle |
| Schedule.ResolvesIff | src/hooks/useTemplateStore.js:6-19 | one recursion (start time or level) finishes for every id exactly when the graph is closed and acyclic |
| Schedule.CycleBlocks | src/hooks/useTemplateStore.js:6-35 | with a cycle in the graph, a self-dependency included, the recursion does not finish for every id |
| Schedule.ResolvesClosed | src/hooks/useTemplateStore.js:7-13 | if every id gets a value, no dependency names a missing task |
| Schedule.UnresolvedHasCycle | src/hooks/useTemplateStore.js:6-35 | in a closed list, an id without a value lies on a cycle |
| Schedule.StartTimeIsLatestFinish | src/hooks/useTemplateStore.js:10-17 | in the output, a task's start is at least every dependency's start plus duration, and equals one of them; it is 0 without dependencies |
| Schedule.LevelIsOneAboveDeepest | src/hooks/useTemplateStore.js:27-33 | in the output, a task's level is at least each dependency's level plus 1, and equals one of them; it is 0 without dependencies |
| Schedule.ValueIsMaxFinish | src/hooks/useTemplateStore.js:10-16 | a derived value bounds every dependency's finish and equals one of them (0 without dependencies) |
| Schedule.ScheduledKeepsOrder | src/hooks/useTemplateStore.js:4-39 | with unique ids, the output has the same tasks in the same order, every non-derived field copied |
| Schedule.ScheduledIds | src/hooks/useTemplateStore.js:4-39 | the output lists each id once, in first-occurrence order, with the same id set as the input |
| Schedule.ScheduledIdSet | src/hooks/useTemplateStore.js:4-39 | the output has unique ids, and the same id set as the input |
| Schedule.ScheduledPosition | src/hooks/useTemplateStore.js:39 | every input id has a position in the output holding its scheduled task |
| Schedule.KeysOfUnique | src/hooks/useTemplateStore.js:4 | with unique ids, the map's key order is the list's own order |
| Schedule.DerivedIsLongestPath | src/hooks/useTemplateStore.js:10-33 | for either derived field, an output task's value is at least each dependency's value plus its weight and equals one of them; it is 0 without dependencies |
| Schedule.CycleFails | src/hooks/useTemplateStore.js:6-35 | no id on a dependency cycle ever gets a value, whatever the fuel |
| Schedule.FailurePath | src/hooks/useTemplateStore.js:6-35 | in a closed list, an id whose recursion runs out of fuel starts a chain of dependencies one step longer than the fuel |
| Schedule.ScheduledLookup | src/hooks/useTemplateStore.js:4-39 | the output's task for an id is the last input task with that id, with both derived fields written |
| Schedule.ScheduledIdempotent | src/hooks/useTemplateStore.js:4 | running the engine on its own output accepts it and changes nothing, because the derived fields are reset on entry |
| Schedule.ScheduleIgnoresDerivedFields | src/hooks/useTemplateStore.js:4 | lists that differ only in `startTime`/`level` are accepted alike and scheduled alike |
| Schedule.EquivalentScheduled | src/hooks/useTemplateStore.js:4-39 | lists with the same keys and the same user fields per id are accepted alike and give the same output |
| Schedule.ScheduledEquivalent | src/hooks/useTemplateStore.js:4-39 | the output has the input's keys, and the same user fields for every id |
| Schedule.Keys | src/hooks/useTemplateStore.js:4 | the map's keys: every id of the list, once each, and nothing else |
| Schedule.KeysInFirstOccurrenceOrder | src/hooks/useTemplateStore.js:4 | the keys come in order of first occurrence: wherever the list holds a later key, an earlier key occurs in front of it |
| Schedule.Lookup | src/hooks/useTemplateStore.js:4 | `taskMap.get`: defined exactly on the list's ids, and returns a task of the list with that id |
| Schedule.LookupIsLast | src/hooks/useTemplateStore.js:4 | the task found under an id is the last one of the list with that id, as later map entries overwrite earlier ones |
| Schedule.LookupUnique | src/hooks/useTemplateStore.js:4 | with unique ids, looking up a task's id finds that task |
| Engine.CalculateStartTimes | src/hooks/useTemplateStore.js:3-40 | returns a list exactly when the graph is closed and acyclic (otherwise the source throws), and then returns `Scheduled` |
| Engine.TaskMap.CalcStart | src/hooks/useTemplateStore.js:6-19 | the memoised recursion returns the task's start time and leaves it written into the task's copy; it may recompute a start of 0, as the memo only fires above 0, and only adds ids to the set of written starts |
| Engine.TaskMap.StartEndsOf | src/hooks/useTemplateStore.js:10-14 | the `.map` over dependencies returns each dependency's start plus duration, in order |
| Engine.TaskMap.CalcLevel | src/hooks/useTemplateStore.js:23-35 | the memoised recursion returns the task's level and leaves it written into the task's copy, without touching start times |
| Engine.TaskMap.LevelEndsOf | src/hooks/useTemplateStore.js:27-30 | the `.map` over dependencies returns each dependency's level plus 1, in order |
| Engine.TaskMap.Run | src/hooks/useTemplateStore.js:21-37 | the two `forEach` loops leave every listed id with both fields written |
| Engine.TaskMap.Values | src/hooks/useTemplateStore.js:39 | `Array.from(taskMap.values())` lists the copies in key order |
| Engine.TaskMap.constructor | src/hooks/useTemplateStore.js:4 | the map starts with a copy of each task under its id, both derived fields unwritten |
| Engine.BuildSourceMap | src/hooks/useTemplateStore.js:4 | building the map gives the first-occurrence key order and, per id, the last task with derived fields reset |
| Engine.RunEngine | src/hooks/useTemplateStore.js:4-39 | against any plan satisfying both recurrences, the engine returns every copy with its planned values |
| Engine.StartIsLatest | src/hooks/useTemplateStore.js:10-16 | a task's start is the `Math.max` of its dependencies' ends, or 0 without any |
| Engine.LevelIsLatest | src/hooks/useTemplateStore.js:27-33 | a task's level is the `Math.max` of its dependencies' levels plus 1, or 0 without any |
| Engine.ValuesArePlanned | src/hooks/useTemplateStore.js:10-33 | the specification's values satisfy the recurrences the two recursions compute |
| Engine.FinishedIsScheduled | src/hooks/useTemplateStore.js:39 | the copies with the specification's values, in key order, are exactly `Scheduled` |
| Engine.Latest | src/hooks/useTemplateStore.js:16 | `length > 0 ? Math.max(...) : 0`: bounds every entry, is one of them, and is 0 for none |
| Edits.WithTaskLookup | src/hooks/useTemplateStore.js:76 | after adding, the new id finds the added task with no dependencies; every other id finds what it did before |
| Edits.WithoutTaskIds | src/hooks/useTemplateStore.js:91 | `filter` removes exactly the task's id from the id set |
| Edits.WithoutTaskLookup | src/hooks/useTemplateStore.js:91 | every other id still finds the same task |
| Edits.WithoutTask | src/hooks/useTemplateStore.js:91 | `filter(task => task.id !== taskId)`: an order-keeping selection of the list holding exactly its tasks with another id |
| Edits.LinkedLookup | src/hooks/useTemplateStore.js:106-110 | every id finds its old task after the dependency-adding step |
| Edits.LinkedSteps | src/hooks/useTemplateStore.js:106-110 | the new graph has every old dependency, and only one new one: the target on the source, present when the target is listed |
| Edits.LinkedClosed | src/hooks/useTemplateStore.js:106-110 | a closed list stays closed when the target is unlisted or the source is listed |
| Edits.UnlinkedLookup | src/hooks/useTemplateStore.js:125-129 | every id finds its old task after the dependency-filtering step |
| Edits.UnlinkedDropsSource | src/hooks/useTemplateStore.js:125-129 | afterwards the target does not list the source, and the id set is kept |
| Edits.UnlinkedScheduledFields | src/hooks/useTemplateStore.js:125-130 | scheduling the filtered list keeps the original key order and every task's name and duration |
| Edits.UnlinkUndoesLinkTasks | src/hooks/useTemplateStore.js:103-138 | filtering out a dependency that was just appended gives back the same keys and the same user fields per id |
| Edits.SelfStepCycle | src/hooks/useTemplateStore.js:6-35 | a task that depends on itself makes the graph cyclic |
| Edits.DanglingStepOpen | src/hooks/useTemplateStore.js:7-13 | a dependency on an unlisted id makes the list not closed |
| Edits.WithoutTaskKeepsGraph | src/hooks/useTemplateStore.js:91-92 | removing a task no one depends on keeps a closed acyclic list closed and acyclic |
| Edits.LinkedDeps | src/hooks/useTemplateStore.js:106-110 | only the target's list changes: the source is appended, with no dedupe and no check |
| Edits.UnlinkedDeps | src/hooks/useTemplateStore.js:125-129 | only the target's list changes: every occurrence of the source is filtered out |
| Edits.ReplacedLookup | src/hooks/useTemplateStore.js:194 | the updated id finds the new task; every other id finds its old one |
| Edits.JoinedCounts | src/hooks/useTemplateStore.js:156-160 | adds exactly one more occurrence of the task to each group with the id; the other groups are unchanged |
| Edits.LeftCounts | src/hooks/useTemplateStore.js:175-179 | removes every occurrence from each group with the id; its other members and the other groups are kept |
| Edits.LeaveUndoesJoin | src/hooks/useTemplateStore.js:153-189 | leaving a group right after joining it equals only leaving it |
| Edits.GroupOf | src/components/Canvas/Canvas.js:109 | `groups.find(g => g.taskIds.includes(id))`: some group exactly when one lists the id, and then the first such group |
| Edits.WithoutTaskGraph | src/hooks/useTemplateStore.js:91-92 | after removing a task, the engine accepts the list exactly when no remaining task depends on it |
| Edits.WithoutDependedTaskOpen | src/hooks/useTemplateStore.js:91-92 | removing a task another task depends on leaves a dangling dependency |
| Edits.LinkedGraph | src/hooks/useTemplateStore.js:106-112 | giving a listed target one more dependency keeps the list closed and acyclic exactly when the source is listed and is not the target or a task that already depends on it through a chain; with an unlisted target the list stays closed and acyclic |
| Edits.NewEdgeCycleIff | src/hooks/useTemplateStore.js:106-112 | making one more task depend on another keeps an acyclic graph acyclic exactly when the new dependency does not already lead back, through a chain, to the task that gains it |
| Edits.UnlinkedGraph | src/hooks/useTemplateStore.js:125-130 | removing a dependency keeps an accepted list accepted |
| Edits.WithTaskGraph | src/hooks/useTemplateStore.js:76 | adding a task keeps an accepted list accepted |
| Edits.AddedTaskAtZero | src/hooks/useTemplateStore.js:76 | a new task without dependencies is scheduled at start 0 and level 0 |
| Edits.ScheduledDeps | src/hooks/useTemplateStore.js:4 | the engine keeps the id set and every dependency list |
| Edits.UnlinkAfterLink | src/hooks/useTemplateStore.js:103-138 | on the engine's output, removing a newly added dependency gives back the schedule from before |
| Edits.ReplacedScheduledFields | src/hooks/useTemplateStore.js:191-199 | after `updateTask` and the engine, the updated id has the new user fields and every other id its old ones |
| Templates.Apply | src/hooks/useTemplateStore.js:63-205 | one action on one template: group actions never fail and keep the tasks; task actions keep id, name and groups; an update takes the given template |
| Templates.RescheduleIff | src/hooks/useTemplateStore.js:65-130 | rerunning the engine succeeds exactly on closed acyclic lists, and then stores its output |
| Templates.ApplyKeepsSchedulable | src/hooks/useTemplateStore.js:63-205 | every accepted action leaves tasks the engine accepts again |
| Templates.AddTaskAccepted | src/hooks/useTemplateStore.js:73-86 | adding a task is always accepted; the new id is added, and the task is found with no dependencies at start 0 and level 0 |
| Templates.RemoveTaskAcceptedIff | src/hooks/useTemplateStore.js:88-101 | removing a task is accepted exactly when no task depends on it, and then only its id is gone |
| Templates.AddDependencyAcceptedIff | src/hooks/useTemplateStore.js:103-120 | for a listed target, the action is accepted exactly when the source is listed and the source is not the target and does not already depend on it, directly or through a chain; with an unlisted target it is always accepted |
| Templates.AddDependencyDeps | src/hooks/useTemplateStore.js:106-112 | an accepted dependency is listed by its target afterwards, and no other list changes |
| Templates.SelfDependencyRejected | src/hooks/useTemplateStore.js:103-120 | a task made to depend on itself always fails |
| Templates.DanglingDependencyRejected | src/hooks/useTemplateStore.js:103-120 | a dependency on an id that is not a task always fails |
| Templates.RemoveDependencyAccepted | src/hooks/useTemplateStore.js:122-138 | removing a dependency is always accepted; afterwards the target does not list the source |
| Templates.RemoveDependencyDeps | src/hooks/useTemplateStore.js:125-130 | only the target's list changes, by filtering out the source |
| Templates.RemoveDependencyExactly | src/hooks/useTemplateStore.js:122-138 | removing a dependency drops exactly that edge: every other dependency stays, and none is added |
| Templates.RemoveDependencyKeepsFields | src/hooks/useTemplateStore.js:122-138 | removing a dependency keeps the template's id, name and groups, the task order, and every task's name and duration |
| Templates.UnlinkUndoesLink | src/hooks/useTemplateStore.js:103-138 | removing a newly added dependency restores the template's schedule |
| Templates.UpdateTaskFields | src/hooks/useTemplateStore.js:191-205 | after `updateTask`, the matching id has the new user fields and every other id keeps its own |
| Templates.ApplyToMatching | src/hooks/useTemplateStore.js:64-66 | `templates.map(...)`: fails exactly when the action fails on some template with the id; every other template is untouched |
| Templates.FindById | src/hooks/useTemplateStore.js:60 | finding again by the found template's id gives the same template |
| Templates.ApplyToMatchingSchedulable | src/hooks/useTemplateStore.js:63-205 | an accepted action over the whole list leaves every template with tasks the engine accepts |
| Templates.Find | src/hooks/useTemplateStore.js:60 | `find` by id: the first template with that id, or none when no template has it |
| Templates.FindAfterApply | src/hooks/useTemplateStore.js:69 | after the map, `find` by the same id returns the edited version of what it found before |
| Templates.FindAppend | src/hooks/useTemplateStore.js:54 | appending a template changes `find` only for an id no earlier template has |
| Store.AddTaskCommits | src/hooks/useTemplateStore.js:73-86 | adding a task commits whenever every template's tasks are ones the engine accepts, as in every state the store reaches |
| Store.RemoveDependencyCommits | src/hooks/useTemplateStore.js:122-138 | removing a dependency commits whenever every template's tasks are ones the engine accepts |
| Store.GroupEditCommits | src/hooks/useTemplateStore.js:140-189 | group actions always commit and never touch any template's tasks or id |
| Store.RemoveTaskCommitsIff | src/hooks/useTemplateStore.js:88-101 | removing a task commits exactly when no task of a matching template depends on it |
| Store.AddDependencyCommitsIff | src/hooks/useTemplateStore.js:103-120 | adding a dependency commits exactly when, in every template with the id that lists the target, the source is listed and is neither the target nor a task depending on it through a chain |
| Store.UpdateTaskCommitsIff | src/hooks/useTemplateStore.js:191-205 | updating a task commits exactly when every matching template's updated list is closed and acyclic |
| Store.UpdateTemplateCommitsIff | src/hooks/useTemplateStore.js:63-71 | updating a template commits exactly when no template has its id, or its tasks are closed and acyclic |
| Store.TemplateStore.constructor | src/hooks/useTemplateStore.js:42-44 | no templates and no selection |
| Store.TemplateStore.AddTemplate | src/hooks/useTemplateStore.js:46-57 | appends an empty template and selects it |
| Store.TemplateStore.SelectTemplate | src/hooks/useTemplateStore.js:59-61 | selects the first template with the id, or none |
| Store.TemplateStore.Commit | src/hooks/useTemplateStore.js:63-205 | the shared shape of every action: commit exactly when the map succeeds, then store the mapped list and re-select by the id; otherwise change nothing |
| Store.TemplateStore.UpdateTemplate | src/hooks/useTemplateStore.js:63-71 | commits exactly when allowed; the list is then the `map` replacing every template with the id, and the selection is the `find` by that id: none when no template had it, and otherwise the given template with the engine's tasks |
| Store.TemplateStore.AddTaskToTemplate | src/hooks/useTemplateStore.js:73-86 | always commits; a selected template with the id becomes that template with the task added and rescheduled, holding the task with no dependencies at 0/0 |
| Store.TemplateStore.RemoveTaskFromTemplate | src/hooks/useTemplateStore.js:88-101 | commits exactly when no matching template has a task depending on it; the selection then lacks the id |
| Store.TemplateStore.AddDependency | src/hooks/useTemplateStore.js:103-120 | commits exactly when no matching template would get a dangling id or a cycle; the selection is then the edited template |
| Store.TemplateStore.RemoveDependency | src/hooks/useTemplateStore.js:122-138 | always commits; the selected target no longer lists the source |
| Store.TemplateStore.UpdateTask | src/hooks/useTemplateStore.js:191-205 | commits exactly when every matching updated list is closed and acyclic |
| Store.TemplateStore.AddGroupToTemplate | src/hooks/useTemplateStore.js:140-151 | always commits; the selection gains the emptied group; the tasks and the other templates are unchanged |
| Store.TemplateStore.AddTaskToGroup | src/hooks/useTemplateStore.js:153-170 | always commits; the named group gains the id; the tasks and the other templates are unchanged |
| Store.TemplateStore.RemoveTaskFromGroup | src/hooks/useTemplateStore.js:172-189 | always commits; the named group loses every occurrence; the tasks and the other templates are unchanged |
| Sidebar.TrimEmptyIff | src/components/Sidebar/Sidebar.js:24 | `trim()` is empty exactly when the text is all white space; a non-empty result starts and ends with a non-space |
| Sidebar.TrimIdempotent | src/components/Sidebar/Sidebar.js:24-25 | trimming twice equals trimming once |
| Sidebar.TextStart | src/components/Sidebar/Sidebar.js:24 | skips exactly the leading white space |
| Sidebar.TextEnd | src/components/Sidebar/Sidebar.js:24 | drops exactly the trailing white space |
| Sidebar.Trim | src/components/Sidebar/Sidebar.js:24 | `trim()`: a contiguous slice of the text with only white space cut from either end, and no white space at either end of a non-empty result |
| Sidebar.HandleAddTemplate | src/components/Sidebar/Sidebar.js:23-28 | with a non-blank name, appends and selects a template with the trimmed name; otherwise nothing changes |
| Sidebar.HandleAddGroup | src/components/Sidebar/Sidebar.js:30-41 | with a non-blank name and a selection, the store's list is the `addGroupToTemplate` map over the selected id, and the selection gains the group with the trimmed name, no task ids and the random colour; otherwise nothing changes |
| Sidebar.HandleAddTask | src/components/Sidebar/Sidebar.js:43-55 | with non-blank name and duration and a selection, the store's list is the `addTaskToTemplate` map over the selected id, the selection is the selected template with the task added and rescheduled, and the task is found with no dependencies at 0/0; otherwise nothing changes |
| Sidebar.HandleDrop | src/components/Sidebar/Sidebar.js:65-80 | the task ends up exactly once in the target group and in no other group, or in none for "ungrouped"; no other membership changes, and nothing changes without a selection |
| Sidebar.ClearedStep | src/components/Sidebar/Sidebar.js:70-74 | each turn of the `forEach` keeps the groups up to it free of the task |
| Sidebar.ClearedThenJoined | src/components/Sidebar/Sidebar.js:75-78 | after the loop, adding to the target group gives exactly one occurrence there |
| Sidebar.GroupTasks | src/components/Sidebar/Sidebar.js:111 | the template's tasks whose id the group lists, in template order, with their multiplicities |
| Sidebar.UngroupedTasks | src/components/Sidebar/Sidebar.js:148-150 | the template's tasks that no group lists, in template order, with their multiplicities |
| Sidebar.UngroupedOrInAGroup | src/components/Sidebar/Sidebar.js:111-150 | a task is under "Ungrouped Tasks" exactly when it is under no group |
| Sidebar.MovedListing | src/components/Sidebar/Sidebar.js:65-111 | after a drop, the task is listed under a group exactly when that group has the target id |
| Sidebar.MovedUngrouped | src/components/Sidebar/Sidebar.js:65-150 | after a drop on an existing group or on "ungrouped", the task is ungrouped exactly for "ungrouped" |
| Canvas.EdgesOfConcat | src/components/Canvas/Canvas.js:92-102 | `flatMap` over two lists joined is the two edge lists joined |
| Canvas.EdgesOf | src/components/Canvas/Canvas.js:92-102 | every edge has id `source-target` and runs from a dependency to a task that lists it; every dependency entry of every task has its edge |
| Canvas.EdgeCount | src/components/Canvas/Canvas.js:92-102 | one edge per dependency entry, duplicates included |
| Canvas.EdgeAt | src/components/Canvas/Canvas.js:92-102 | the j-th dependency of the i-th task has its edge right after the edges of the tasks before it, with source, target and id `dep-task` |
| Canvas.EdgeOrigin | src/components/Canvas/Canvas.js:92-102 | every edge comes from one dependency entry of one task |
| Canvas.EdgeOfEntry | src/components/Canvas/Canvas.js:92-102 | every dependency entry has its edge |
| Canvas.EdgeIffStep | src/components/Canvas/Canvas.js:92-102 | with unique ids, the chart has an edge from a to b exactly when b is a task that depends on a |
| Canvas.EdgesJoinTasks | src/components/Canvas/Canvas.js:92-112 | in a closed list with unique ids, both ends of every edge are tasks, hence nodes |
| Canvas.NodeShowsFirstGroup | src/components/Canvas/Canvas.js:104-112 | a node shows a group exactly when some group lists its task, and then the first group that does |
| Canvas.DroppedNodeGroup | src/components/Canvas/Canvas.js:109 | after a drop, the node shows a group exactly when it was dropped on an existing group, and that group has the target id; after a drop on "ungrouped" it shows none |
| Canvas.Layout | src/components/Canvas/Canvas.js:43-54 | same nodes in the same order, only positions changed; each box is centred on its layout point; a node without a point is unchanged; edges are returned as they are |
| Canvas.Elements | src/components/Canvas/Canvas.js:90-135 | nothing without a selection; otherwise one laid-out node per task and the dependency edges |
| Canvas.ElementsConnected | src/components/Canvas/Canvas.js:90-117 | for a stored template with unique ids, every drawn edge joins two drawn nodes |
| Canvas.OnConnect | src/components/Canvas/Canvas.js:123-125 | with a listed target, a missing source or a source that is or already depends on the target is refused; a refused connection changes nothing; an accepted one keeps the selection and the target then lists the source |
| Canvas.DeleteStep | src/components/Canvas/Canvas.js:128-130 | one more `removeDependency` deletes one more edge and still changes nothing but dependencies |
| Canvas.OnEdgesDelete | src/components/Canvas/Canvas.js:127-131 | the selection stays the same template with the same name, groups and task order, every task keeping its name and duration; no deleted edge's dependency remains, every other dependency is kept, and none is added; templates with another id are untouched |
| Gantt.RowShowsTask | src/components/GanttChart.js:9-14 | each row carries its task's name, a bar from its start time to start time plus duration, and a group exactly when some group lists the task |
| Gantt.TotalDuration | src/components/GanttChart.js:16 | at least 1, at least every bar's end, and equal to one bar's end unless it is 1 |
| Gantt.Chart | src/components/GanttChart.js:4-16 | nothing for an empty task list; otherwise a row per task on an axis of length at least 1 that covers every bar |
| Gantt.BarColorOfGroup | src/components/GanttChart.js:13-51 | a bar has the colour of the first group listing its task, if that has one; with no group it has `#82ca9d` |
| Gantt.BarColor | src/components/GanttChart.js:51 | the fill is never empty: the group's colour when there is one, else `#82ca9d` |
| Gantt.DroppedBarColor | src/components/GanttChart.js:51 | after a drop, the bar takes the target group's colour, or the default after a drop on "ungrouped" |
| Gantt.BarsFollowDependencies | src/components/GanttChart.js:9-16 | for the engine's output, no bar starts before its dependencies' bars end; a bar with dependencies starts where one ends, and one without starts at 0 |

## Left out

- Rendering, JSX, styles and UI state are not modelled: expanded folders, input fields cleared after an add, context-menu placement, `fitView` and `setTimeout`. The zustand subscription machinery is left out too: the store is a class whose methods replace its two fields.
- `console.log` at src/hooks/useTemplateStore.js:111 has no effect on state and is left out.
- `Date.now()`, `Math.random()` and `parseInt` are parameters. The clock reading is `now`, the random colour's hex digits are `randomHex`, and the parsed duration is `duration`, a natural number. A non-numeric duration (`NaN`) is not modelled.
- Store.TemplateStore.AddTemplate: requires the new id to differ from every stored template's id. A fresh clock reading is taken to be unused; two templates created in the same millisecond are not modelled.
- Sidebar.HandleAddTemplate: requires a fresh `now`, for the same reason.
- Durations, start times and levels are natural numbers (whole days). Negative or fractional durations and floating point are not modelled. `task.startTime || 0` is therefore the start time itself.
- A task without a `dependencies` field, which the source reads as `[]`, is modelled as a task whose list is `[]`. A group without a colour is a group whose colour is `""`.
- A failed engine run (a `TypeError` on a dangling id, or stack exhaustion on a cycle) is modelled as the action committing nothing. The store methods report this as `committed == false`. Exceptions are not modelled as values, and the stack depth is not modelled.
- The store's pure edit functions use the specification `Scheduled` for the engine rather than calling the engine method. `Engine.CalculateStartTimes` is proved to return exactly that.
- The layout engine (dagre) is a foreign library. Its result is a parameter `laidOut`, which maps node ids to centre points. The module-level graph that the layout call mutates, where edges accumulate across calls, is left out.
- Node positions (`Canvas.Position`) are integers. dagre computes JavaScript numbers, which may be fractional; the model takes the laid-out centre as given and subtracts half the node size in whole units.
- The canvas edges' `animated: false`, `markerEnd` and the nodes' `type: 'customNode'` are constants and are not part of the model's records.
- Canvas.OnConnect: states the refusal cases and the result for the selected template only. The exact commit condition over every template sharing the id is the one stated by `Store.TemplateStore.AddDependency`, which it calls.
- Canvas.EdgeIffStep: holds for lists with unique task ids. With duplicate ids the canvas also draws edges for tasks that the engine's map overwrites.
- Gantt.DroppedBarColor: speaks of a target group that no earlier group shares the id with. With duplicate group ids, `find` returns the first.
- The Gantt chart's tooltip and the axis and legend layout are presentation and are left out.
- src/components/Canvas/ContextMenu.js, src/components/Canvas/CustomNode.js, src/components/App.js and src/index.js are presentation and wiring, and are not part of this model. The only state change among them that the running app can reach is duplicating a node, an `addTaskToTemplate` call.
- src/components/Sidebar/TemplateItem.js and src/components/Sidebar/TemplateList.js are not imported anywhere, so nothing in the app reaches them, and they are not part of this model. TemplateItem.js has its own add-task form (lines 9-17). Unlike the sidebar's, it stores the untrimmed name and calls `addTaskToTemplate` directly. TemplateList.js selects a template through `onSelectTemplate` (line 11).
