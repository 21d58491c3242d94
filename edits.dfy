/**
  The edits the template store makes to one template's task list and group
  list before it hands the tasks to the schedule engine
  (src/hooks/useTemplateStore.js, lines 73-205), and what each edit does to the
  dependency graph: which edits the engine always accepts afterwards, and
  exactly when an added dependency or a removed task makes it fail.
*/
module Edits {
  import opened Wrappers
  import opened Sequences
  import opened Schedule

  /** A group of tasks shown together; an empty `color` stands for a missing one. */
  datatype Group = Group(id: string, name: string, color: string, taskIds: seq<Id>)

  // ---------------------------------------------------------------------------
  // Task-list edits

  /** `[...tasks, { ...task, dependencies: [] }]`: a new task starts with no dependencies. */
  function WithTask(tasks: seq<Task>, task: Task): seq<Task>
  {
    tasks + [task.(dependencies := [])]
  }

  /** `tasks.filter(task => task.id !== taskId)`. */
  function WithoutTask(tasks: seq<Task>, taskId: Id): (r: seq<Task>)
    ensures IsSubseq(r, tasks)
    ensures forall t :: t in r <==> t in tasks && t.id != taskId
    ensures forall t: Task :: t.id != taskId ==> multiset(r)[t] == multiset(tasks)[t]
  {
    if tasks == [] then []
    else if Last(tasks).id != taskId then
      var rest := WithoutTask(Init(tasks), taskId);
      assert tasks == Init(tasks) + [Last(tasks)];
      assert Init(rest + [Last(tasks)]) == rest;
      rest + [Last(tasks)]
    else
      var rest := WithoutTask(Init(tasks), taskId);
      assert tasks == Init(tasks) + [Last(tasks)];
      SubseqOfInit(rest, tasks);
      rest
  }

  /** `deps` with `source` appended when `task` is the target (`[...(task.dependencies || []), source]`). */
  function LinkTask(task: Task, source: Id, target: Id): Task
  {
    if task.id == target then task.(dependencies := task.dependencies + [source]) else task
  }

  /** Every occurrence of `source` dropped from the target's dependencies. */
  function UnlinkTask(task: Task, source: Id, target: Id): Task
  {
    if task.id == target then task.(dependencies := Without(task.dependencies, source)) else task
  }

  /** `updatedTask` in place of every task with its id. */
  function ReplaceTask(task: Task, updated: Task): Task
  {
    if task.id == updated.id then updated else task
  }

  /** `tasks.map(task => task.id === target ? {... source appended ...} : task)` (line 106). */
  function Linked(tasks: seq<Task>, source: Id, target: Id): seq<Task>
  {
    seq(|tasks|, i requires 0 <= i < |tasks| => LinkTask(tasks[i], source, target))
  }

  /** `tasks.map(task => task.id === target ? {... source filtered out ...} : task)` (line 125). */
  function Unlinked(tasks: seq<Task>, source: Id, target: Id): seq<Task>
  {
    seq(|tasks|, i requires 0 <= i < |tasks| => UnlinkTask(tasks[i], source, target))
  }

  /** `tasks.map(task => task.id === updatedTask.id ? updatedTask : task)` (line 194). */
  function Replaced(tasks: seq<Task>, updated: Task): seq<Task>
  {
    seq(|tasks|, i requires 0 <= i < |tasks| => ReplaceTask(tasks[i], updated))
  }

  // ---------------------------------------------------------------------------
  // Group-list edits

  /** `[...groups, { ...group, taskIds: [] }]`. */
  function WithGroup(groups: seq<Group>, group: Group): seq<Group>
  {
    groups + [group.(taskIds := [])]
  }

  function JoinGroup(group: Group, taskId: Id, groupId: string): Group
  {
    if group.id == groupId then group.(taskIds := group.taskIds + [taskId]) else group
  }

  function LeaveGroup(group: Group, taskId: Id, groupId: string): Group
  {
    if group.id == groupId then group.(taskIds := Without(group.taskIds, taskId)) else group
  }

  /** `taskId` appended to the task list of every group with id `groupId` (line 156). */
  function Joined(groups: seq<Group>, taskId: Id, groupId: string): seq<Group>
  {
    seq(|groups|, i requires 0 <= i < |groups| => JoinGroup(groups[i], taskId, groupId))
  }

  /** `taskId` filtered out of the task list of every group with id `groupId` (line 175). */
  function Left(groups: seq<Group>, taskId: Id, groupId: string): seq<Group>
  {
    seq(|groups|, i requires 0 <= i < |groups| => LeaveGroup(groups[i], taskId, groupId))
  }

  // ---------------------------------------------------------------------------
  // Group membership

  /** Joining adds exactly one occurrence of the task to the named group and changes nothing else. */
  lemma JoinedCounts(groups: seq<Group>, taskId: Id, groupId: string, i: nat)
    requires i < |groups|
    ensures var g := Joined(groups, taskId, groupId)[i];
      && g.id == groups[i].id && g.name == groups[i].name && g.color == groups[i].color
      && (groups[i].id == groupId ==> multiset(g.taskIds) == multiset(groups[i].taskIds) + multiset{taskId})
      && (groups[i].id != groupId ==> g == groups[i])
  {
  }

  /** Leaving removes every occurrence of the task from the named group and keeps every other member. */
  lemma LeftCounts(groups: seq<Group>, taskId: Id, groupId: string, i: nat)
    requires i < |groups|
    ensures var g := Left(groups, taskId, groupId)[i];
      && g.id == groups[i].id && g.name == groups[i].name && g.color == groups[i].color
      && (groups[i].id == groupId ==>
            taskId !in g.taskIds && forall x :: x != taskId ==> multiset(g.taskIds)[x] == multiset(groups[i].taskIds)[x])
      && (groups[i].id != groupId ==> g == groups[i])
  {
  }

  /** `groups.find(g => g.taskIds.includes(id))`: the first group listing the task. */
  function GroupOf(groups: seq<Group>, id: Id): (r: Option<Group>)
    ensures r.Some? <==> exists j :: 0 <= j < |groups| && id in groups[j].taskIds
    ensures r.Some? ==>
      exists j :: 0 <= j < |groups| && groups[j] == r.value && id in r.value.taskIds && forall k :: 0 <= k < j ==> id !in groups[k].taskIds
  {
    if groups == [] then None
    else if id in groups[0].taskIds then Some(groups[0])
    else
      var r := GroupOf(groups[1..], id);
      assert forall j | 1 <= j < |groups| :: groups[1..][j - 1] == groups[j];
      if r.Some? then
        var j :| 0 <= j < |groups[1..]| && groups[1..][j] == r.value && id in r.value.taskIds &&
          forall k :: 0 <= k < j ==> id !in groups[1..][k].taskIds;
        assert groups[j + 1] == r.value;
        r
      else
        r
  }

  /** Dropping an element the filter rejects from the end does not change the filtered list. */
  lemma WithoutSnoc<T(!new)>(s: seq<T>, x: T)
    ensures Without(s + [x], x) == Without(s, x)
  {
    assert Init(s + [x]) == s;
  }

  /** Leaving a group right after joining it is the same as only leaving it. */
  lemma LeaveUndoesJoin(groups: seq<Group>, taskId: Id, groupId: string)
    ensures Left(Joined(groups, taskId, groupId), taskId, groupId) == Left(groups, taskId, groupId)
  {
    var a := Left(Joined(groups, taskId, groupId), taskId, groupId);
    var b := Left(groups, taskId, groupId);
    forall i | 0 <= i < |groups|
      ensures a[i] == b[i]
    {
      if groups[i].id == groupId {
        WithoutSnoc(groups[i].taskIds, taskId);
      }
    }
  }

  // ---------------------------------------------------------------------------
  // Lookups after an edit

  /** A position-wise edit that keeps ids keeps the key order and the id set. */
  lemma MappedKeys(a: seq<Task>, b: seq<Task>)
    requires |a| == |b| && forall j :: 0 <= j < |a| ==> a[j].id == b[j].id
    ensures Keys(a) == Keys(b) && IdSet(a) == IdSet(b)
  {
    PointwiseLookup(a, b);
  }

  /** A position-wise edit that keeps ids keeps the id set and edits the task every id looks up. */
  lemma MappedLookup(a: seq<Task>, b: seq<Task>, k: Id) returns (i: nat)
    requires |a| == |b| && forall j :: 0 <= j < |a| ==> a[j].id == b[j].id
    requires k in IdSet(a)
    ensures IdSet(b) == IdSet(a)
    ensures i < |a| && Lookup(a, k) == Some(a[i]) && Lookup(b, k) == Some(b[i])
  {
    PointwiseLookup(a, b);
    i :| 0 <= i < |a| && Lookup(a, k) == Some(a[i]) && Lookup(b, k) == Some(b[i]);
  }

  /** After `Linked`, only the target's dependency list changes: `source` is appended to it. */
  lemma LinkedDeps(tasks: seq<Task>, source: Id, target: Id, k: Id)
    ensures IdSet(Linked(tasks, source, target)) == IdSet(tasks)
    ensures DepsOf(Linked(tasks, source, target), k) ==
      if k == target && k in IdSet(tasks) then DepsOf(tasks, k) + [source] else DepsOf(tasks, k)
  {
    var r := Linked(tasks, source, target);
    PointwiseLookup(tasks, r);
    if k in IdSet(tasks) {
      var i := MappedLookup(tasks, r, k);
    }
  }

  /** After `Unlinked`, only the target's dependency list changes: `source` is filtered out of it. */
  lemma UnlinkedDeps(tasks: seq<Task>, source: Id, target: Id, k: Id)
    ensures IdSet(Unlinked(tasks, source, target)) == IdSet(tasks)
    ensures DepsOf(Unlinked(tasks, source, target), k) ==
      if k == target && k in IdSet(tasks) then Without(DepsOf(tasks, k), source) else DepsOf(tasks, k)
  {
    var r := Unlinked(tasks, source, target);
    PointwiseLookup(tasks, r);
    if k in IdSet(tasks) {
      var i := MappedLookup(tasks, r, k);
    }
  }

  /** After `Unlinked`, the target lists no `source` any more. */
  lemma UnlinkedDropsSource(tasks: seq<Task>, source: Id, target: Id)
    ensures IdSet(Unlinked(tasks, source, target)) == IdSet(tasks)
    ensures source !in DepsOf(Unlinked(tasks, source, target), target)
  {
    UnlinkedDeps(tasks, source, target, target);
  }

  /** After `Replaced`, the updated id looks up the new task and every other id its old one. */
  lemma ReplacedLookup(tasks: seq<Task>, updated: Task, k: Id)
    ensures IdSet(Replaced(tasks, updated)) == IdSet(tasks)
    ensures Lookup(Replaced(tasks, updated), k) ==
      if k == updated.id && k in IdSet(tasks) then Some(updated) else Lookup(tasks, k)
  {
    var r := Replaced(tasks, updated);
    PointwiseLookup(tasks, r);
    if k in IdSet(tasks) {
      var i := MappedLookup(tasks, r, k);
    }
  }

  /** The appended task is what its id looks up; every other id looks up what it did before. */
  lemma WithTaskLookup(tasks: seq<Task>, task: Task, k: Id)
    ensures IdSet(WithTask(tasks, task)) == IdSet(tasks) + {task.id}
    ensures Lookup(WithTask(tasks, task), k) ==
      if k == task.id then Some(task.(dependencies := [])) else Lookup(tasks, k)
  {
    assert Init(WithTask(tasks, task)) == tasks;
  }

  /** Filtering out `taskId` removes exactly that id. */
  lemma {:induction false} WithoutTaskIds(tasks: seq<Task>, taskId: Id)
    ensures IdSet(WithoutTask(tasks, taskId)) == IdSet(tasks) - {taskId}
  {
    if tasks != [] {
      var rest := WithoutTask(Init(tasks), taskId);
      WithoutTaskIds(Init(tasks), taskId);
      if Last(tasks).id != taskId {
        assert Init(rest + [Last(tasks)]) == rest;
      }
    }
  }

  /** After filtering out `taskId`, every other id looks up what it did before. */
  lemma {:induction false} WithoutTaskLookup(tasks: seq<Task>, taskId: Id, k: Id)
    requires k != taskId
    ensures Lookup(WithoutTask(tasks, taskId), k) == Lookup(tasks, k)
  {
    if tasks != [] {
      var rest := WithoutTask(Init(tasks), taskId);
      WithoutTaskLookup(Init(tasks), taskId, k);
      if Last(tasks).id != taskId {
        assert Init(rest + [Last(tasks)]) == rest;
      }
    }
  }

  /** The engine keeps the ids and copies every dependency list unchanged. */
  lemma ScheduledDeps(tasks: seq<Task>, k: Id)
    requires Schedulable(tasks)
    ensures IdSet(Scheduled(tasks)) == IdSet(tasks)
    ensures DepsOf(Scheduled(tasks), k) == DepsOf(tasks, k)
  {
    ScheduledIds(tasks);
    if k in IdSet(tasks) {
      ScheduledLookup(tasks, k);
    }
  }

  /** A task without dependencies, appended last, is scheduled at start time 0 and level 0. */
  lemma AddedTaskAtZero(tasks: seq<Task>, task: Task)
    requires Schedulable(tasks) && |tasks| > 0 && Last(tasks) == task && task.dependencies == []
    ensures Lookup(Scheduled(tasks), task.id) == Some(task.(startTime := 0, level := 0))
  {
    ScheduledLookup(tasks, task.id);
    ValueAttained(tasks, StartTime, task.id);
    ValueAttained(tasks, Level, task.id);
  }

  // ---------------------------------------------------------------------------
  // Graph facts

  /** A graph whose every dependency edge is one of an acyclic graph's is acyclic. */
  lemma FewerEdgesAcyclic(a: seq<Task>, b: seq<Task>)
    requires Acyclic(a)
    requires forall x, y :: Step(b, x, y) ==> Step(a, x, y)
    ensures Acyclic(b)
  {
    forall c | IsPath(b, c) && |c| >= 2
      ensures c[0] != c[|c| - 1]
    {
      assert IsPath(a, c);
    }
  }

  /** A task that depends on itself is a cycle. */
  lemma SelfStepCycle(tasks: seq<Task>, x: Id)
    requires Step(tasks, x, x)
    ensures !Acyclic(tasks)
  {
    var c := [x, x];
    assert IsPath(tasks, c);
  }

  /** A dependency on a task that is not in the list breaks closure. */
  lemma DanglingStepOpen(tasks: seq<Task>, x: Id, y: Id)
    requires Step(tasks, x, y) && y !in IdSet(tasks)
    ensures !Closed(tasks)
  {
  }

  /** Reaching is transitive: two chains joined at their common task are a chain. */
  lemma ReachesTrans(tasks: seq<Task>, x: Id, y: Id, z: Id)
    requires Reaches(tasks, x, y) && Reaches(tasks, y, z)
    ensures Reaches(tasks, x, z)
  {
    var p :| IsPath(tasks, p) && p[0] == x && p[|p| - 1] == y;
    var q :| IsPath(tasks, q) && q[0] == y && q[|q| - 1] == z;
    var c := p + q[1..];
    forall i | 0 <= i < |c| - 1
      ensures Step(tasks, c[i], c[i + 1])
    {
      if i < |p| - 1 {
        assert c[i] == p[i] && c[i + 1] == p[i + 1];
      } else {
        assert c[i] == q[i - |p| + 1] && c[i + 1] == q[i - |p| + 2];
      }
    }
    assert IsPath(tasks, c) && c[0] == x && c[|c| - 1] == z;
  }

  /**
    Every chain of `b`, where `b` is `a` plus the single edge `target -> source`,
    either is a chain of `a` or splits at the new edge: its first task reaches
    `target` in `a`, and `source` reaches its last task in `a`.
  */
  lemma {:induction false} SplitAtNewEdge(a: seq<Task>, b: seq<Task>, source: Id, target: Id, c: seq<Id>)
    requires forall x, y :: Step(b, x, y) ==> Step(a, x, y) || (x == target && y == source)
    requires IsPath(b, c)
    ensures IsPath(a, c) || (Reaches(a, c[0], target) && Reaches(a, source, c[|c| - 1]))
    decreases |c|
  {
    if |c| >= 2 {
      var rest := c[1..];
      assert IsPath(b, rest) by {
        forall i | 0 <= i < |rest| - 1
          ensures Step(b, rest[i], rest[i + 1])
        {
          assert rest[i] == c[i + 1] && rest[i + 1] == c[i + 2];
        }
      }
      SplitAtNewEdge(a, b, source, target, rest);
      assert Step(b, c[0], c[1]);
      assert IsPath(a, [target]);
      if Step(a, c[0], c[1]) {
        if IsPath(a, rest) {
          assert IsPath(a, c) by {
            forall i | 0 <= i < |c| - 1
              ensures Step(a, c[i], c[i + 1])
            {
              if i > 0 {
                assert c[i] == rest[i - 1] && c[i + 1] == rest[i];
              }
            }
          }
        } else {
          assert IsPath(a, [c[0], c[1]]);
          ReachesTrans(a, c[0], c[1], target);
        }
      } else {
        assert c[0] == target && c[1] == source;
        if IsPath(a, rest) {
          assert rest[0] == source && rest[|rest| - 1] == c[|c| - 1];
        }
      }
    }
  }

  /**
    Adding the edge `target -> source` to an acyclic graph creates a cycle exactly
    when `source` already reaches `target`.
  */
  lemma NewEdgeCycleIff(a: seq<Task>, b: seq<Task>, source: Id, target: Id)
    requires Acyclic(a)
    requires forall x, y :: Step(a, x, y) ==> Step(b, x, y)
    requires Step(b, target, source)
    requires forall x, y :: Step(b, x, y) ==> Step(a, x, y) || (x == target && y == source)
    ensures Acyclic(b) <==> !Reaches(a, source, target)
  {
    if Reaches(a, source, target) {
      var p :| IsPath(a, p) && p[0] == source && p[|p| - 1] == target;
      var c := p + [source];
      forall i | 0 <= i < |c| - 1
        ensures Step(b, c[i], c[i + 1])
      {
        if i < |p| - 1 {
          assert Step(a, p[i], p[i + 1]);
        }
      }
      assert IsPath(b, c) && |c| >= 2 && c[0] == c[|c| - 1];
    } else {
      forall c | IsPath(b, c) && |c| >= 2
        ensures c[0] != c[|c| - 1]
      {
        SplitAtNewEdge(a, b, source, target, c);
        if !IsPath(a, c) && c[0] == c[|c| - 1] {
          ReachesTrans(a, source, c[0], target);
        }
      }
    }
  }

  // ---------------------------------------------------------------------------
  // Which edits keep the graph closed and acyclic

  /** No task other than `taskId` itself lists `taskId` as a dependency. */
  predicate NoDependents(tasks: seq<Task>, taskId: Id)
  {
    forall y | y in IdSet(tasks) && y != taskId :: taskId !in DepsOf(tasks, y)
  }

  /** An appended task has no dependencies, so it adds no edge and no missing id. */
  lemma WithTaskGraph(a: seq<Task>, task: Task)
    requires Closed(a) && Acyclic(a)
    ensures Closed(WithTask(a, task)) && Acyclic(WithTask(a, task))
  {
    var b := WithTask(a, task);
    forall x, y | Step(b, x, y)
      ensures Step(a, x, y)
    {
      WithTaskLookup(a, task, x);
    }
    forall x, d | x in IdSet(b) && d in DepsOf(b, x)
      ensures d in IdSet(b)
    {
      WithTaskLookup(a, task, x);
    }
    FewerEdgesAcyclic(a, b);
  }

  /** Removing a dependency only removes edges. */
  lemma UnlinkedGraph(a: seq<Task>, source: Id, target: Id)
    requires Closed(a) && Acyclic(a)
    ensures Closed(Unlinked(a, source, target)) && Acyclic(Unlinked(a, source, target))
  {
    var b := Unlinked(a, source, target);
    forall x, y | Step(b, x, y)
      ensures Step(a, x, y)
    {
      UnlinkedDeps(a, source, target, x);
    }
    forall x, d | x in IdSet(b) && d in DepsOf(b, x)
      ensures d in IdSet(b)
    {
      UnlinkedDeps(a, source, target, x);
    }
    FewerEdgesAcyclic(a, b);
  }

  /** Without any dependent, removing a task leaves a closed acyclic graph. */
  lemma WithoutTaskKeepsGraph(a: seq<Task>, taskId: Id)
    requires Closed(a) && Acyclic(a) && NoDependents(a, taskId)
    ensures Closed(WithoutTask(a, taskId)) && Acyclic(WithoutTask(a, taskId))
  {
    var b := WithoutTask(a, taskId);
    WithoutTaskIds(a, taskId);
    forall x, y | Step(b, x, y)
      ensures Step(a, x, y)
    {
      WithoutTaskLookup(a, taskId, x);
    }
    forall x, d | x in IdSet(b) && d in DepsOf(b, x)
      ensures d in IdSet(b)
    {
      WithoutTaskLookup(a, taskId, x);
    }
    FewerEdgesAcyclic(a, b);
  }

  /** Removing a task another task depends on leaves that dependency dangling. */
  lemma WithoutDependedTaskOpen(a: seq<Task>, taskId: Id)
    requires !NoDependents(a, taskId)
    ensures !Closed(WithoutTask(a, taskId))
  {
    var y :| y in IdSet(a) && y != taskId && taskId in DepsOf(a, y);
    WithoutTaskLookup(a, taskId, y);
    WithoutTaskIds(a, taskId);
    DanglingStepOpen(WithoutTask(a, taskId), y, taskId);
  }

  /** Removing a task keeps the graph closed and acyclic exactly when no other task depends on it. */
  lemma WithoutTaskGraph(a: seq<Task>, taskId: Id)
    requires Closed(a) && Acyclic(a)
    ensures Closed(WithoutTask(a, taskId)) && Acyclic(WithoutTask(a, taskId)) <==> NoDependents(a, taskId)
  {
    if NoDependents(a, taskId) {
      WithoutTaskKeepsGraph(a, taskId);
    } else {
      WithoutDependedTaskOpen(a, taskId);
    }
  }

  /** `Linked` adds exactly the edge `target -> source`, when `target` is a task of the list. */
  lemma LinkedSteps(a: seq<Task>, source: Id, target: Id)
    ensures forall x, y :: Step(a, x, y) ==> Step(Linked(a, source, target), x, y)
    ensures forall x, y :: Step(Linked(a, source, target), x, y) ==> Step(a, x, y) || (x == target && y == source)
    ensures target in IdSet(a) ==> Step(Linked(a, source, target), target, source)
  {
    var b := Linked(a, source, target);
    forall x, y | Step(a, x, y)
      ensures Step(b, x, y)
    {
      LinkedDeps(a, source, target, x);
    }
    forall x, y | Step(b, x, y)
      ensures Step(a, x, y) || (x == target && y == source)
    {
      LinkedDeps(a, source, target, x);
    }
    LinkedDeps(a, source, target, target);
  }

  /** The new dependency keeps the graph closed when its source is a task of the list. */
  lemma LinkedClosed(a: seq<Task>, source: Id, target: Id)
    requires Closed(a) && (target in IdSet(a) ==> source in IdSet(a))
    ensures Closed(Linked(a, source, target))
  {
    var b := Linked(a, source, target);
    forall x, d | x in IdSet(b) && d in DepsOf(b, x)
      ensures d in IdSet(b)
    {
      LinkedDeps(a, source, target, x);
    }
  }

  /**
    Making `target` depend on `source` keeps a closed acyclic graph so exactly
    when `source` is a task of the list that does not already reach `target`;
    a `target` outside the list changes nothing.
  */
  lemma LinkedGraph(a: seq<Task>, source: Id, target: Id)
    requires Closed(a) && Acyclic(a)
    ensures target in IdSet(a) ==>
      ((Closed(Linked(a, source, target)) && Acyclic(Linked(a, source, target)))
       <==> source in IdSet(a) && !Reaches(a, source, target))
    ensures target !in IdSet(a) ==> Closed(Linked(a, source, target)) && Acyclic(Linked(a, source, target))
  {
    var b := Linked(a, source, target);
    LinkedSteps(a, source, target);
    LinkedDeps(a, source, target, target);
    if target !in IdSet(a) {
      LinkedClosed(a, source, target);
      FewerEdgesAcyclic(a, b);
    } else if source !in IdSet(a) {
      DanglingStepOpen(b, target, source);
    } else {
      LinkedClosed(a, source, target);
      NewEdgeCycleIff(a, b, source, target);
    }
  }

  // ---------------------------------------------------------------------------
  // Removing a dependency undoes adding it

  /** Filtering out an element that is not there changes nothing. */
  lemma {:induction false} WithoutAbsent<T(!new)>(s: seq<T>, x: T)
    requires x !in s
    ensures Without(s, x) == s
  {
    if s != [] {
      WithoutAbsent(Init(s), x);
      assert s == Init(s) + [Last(s)];
      WithoutSnocKept(Init(s), Last(s), x);
    }
  }

  lemma WithoutSnocKept<T(!new)>(s: seq<T>, y: T, x: T)
    requires y != x
    ensures Without(s + [y], x) == Without(s, x) + [y]
  {
    assert Init(s + [y]) == s;
  }

  /** Unlinking right after linking a dependency that was not there gives back the task. */
  lemma UnlinkLinkTask(task: Task, source: Id, target: Id)
    requires task.id == target ==> source !in task.dependencies
    ensures UnlinkTask(LinkTask(task, source, target), source, target) == task
  {
    if task.id == target {
      WithoutSnoc(task.dependencies, source);
      WithoutAbsent(task.dependencies, source);
    }
  }

  /** Unlinking a task whose user fields are those of a linked one gives back the original. */
  lemma UnlinkBare(m: Task, task: Task, source: Id, target: Id)
    requires task.id == target ==> source !in task.dependencies
    requires Bare(m) == Bare(LinkTask(task, source, target))
    ensures Bare(UnlinkTask(m, source, target)) == Bare(task)
  {
    UnlinkLinkTask(task, source, target);
  }

  /** Every id of a linked list looks up its old task, linked. */
  lemma LinkedLookup(tasks: seq<Task>, source: Id, target: Id, k: Id)
    requires k in IdSet(tasks)
    ensures Lookup(Linked(tasks, source, target), k) == Some(LinkTask(Lookup(tasks, k).value, source, target))
  {
    var i := MappedLookup(tasks, Linked(tasks, source, target), k);
  }

  /** Every id of an unlinked list looks up its old task, unlinked. */
  lemma UnlinkedLookup(tasks: seq<Task>, source: Id, target: Id, k: Id)
    requires k in IdSet(tasks)
    ensures Lookup(Unlinked(tasks, source, target), k) == Some(UnlinkTask(Lookup(tasks, k).value, source, target))
  {
    var i := MappedLookup(tasks, Unlinked(tasks, source, target), k);
  }

  /**
    Scheduling an unlinked list keeps the key order of the original and
    every task's name and duration.
  */
  lemma UnlinkedScheduledFields(a: seq<Task>, source: Id, target: Id)
    requires Schedulable(Unlinked(a, source, target))
    ensures var out := Scheduled(Unlinked(a, source, target));
      && Keys(out) == Keys(a)
      && forall k | k in IdSet(a) ::
           && k in IdSet(out)
           && Lookup(out, k).value.name == Lookup(a, k).value.name
           && Lookup(out, k).value.duration == Lookup(a, k).value.duration
  {
    var b := Unlinked(a, source, target);
    assert forall j :: 0 <= j < |b| ==> b[j].id == a[j].id;
    MappedKeys(a, b);
    ScheduledIds(b);
    forall k | k in IdSet(a)
      ensures k in IdSet(Scheduled(b))
      ensures Lookup(Scheduled(b), k).value.name == Lookup(a, k).value.name
      ensures Lookup(Scheduled(b), k).value.duration == Lookup(a, k).value.duration
    {
      UnlinkedLookup(a, source, target, k);
      ScheduledLookup(b, k);
    }
  }

  /** Unlinking, from any list equivalent to the linked one, gives back each id's task. */
  lemma UnlinkUndoesLinkAt(a: seq<Task>, mid: seq<Task>, source: Id, target: Id, k: Id)
    requires source !in DepsOf(a, target)
    requires Equivalent(mid, Linked(a, source, target)) && k in IdSet(a)
    ensures Lookup(Unlinked(mid, source, target), k).Some?
    ensures Bare(Lookup(Unlinked(mid, source, target), k).value) == Bare(Lookup(a, k).value)
  {
    var linked := Linked(a, source, target);
    LinkedLookup(a, source, target, k);
    assert k in IdSet(mid) by {
      assert k in Keys(linked);
    }
    UnlinkedLookup(mid, source, target, k);
    UnlinkBare(Lookup(mid, k).value, Lookup(a, k).value, source, target);
  }

  /** Unlinking, from any list equivalent to the linked one, gives back an equivalent list. */
  lemma UnlinkUndoesLinkTasks(a: seq<Task>, mid: seq<Task>, source: Id, target: Id)
    requires source !in DepsOf(a, target)
    requires Equivalent(mid, Linked(a, source, target))
    ensures Equivalent(Unlinked(mid, source, target), a)
  {
    var linked := Linked(a, source, target);
    var b := Unlinked(mid, source, target);
    MappedKeys(a, linked);
    MappedKeys(mid, b);
    forall k | k in IdSet(b)
      ensures Bare(Lookup(b, k).value) == Bare(Lookup(a, k).value)
    {
      UnlinkUndoesLinkAt(a, mid, source, target, k);
    }
  }

  /**
    Scheduling after linking a new dependency and then unlinking it gives the
    schedule of the original list: the engine ignores the derived fields the
    first run wrote.
  */
  lemma UnlinkAfterLink(a: seq<Task>, source: Id, target: Id)
    requires Schedulable(a) && source !in DepsOf(a, target)
    requires Schedulable(Linked(a, source, target))
    ensures var b := Unlinked(Scheduled(Linked(a, source, target)), source, target);
      Schedulable(b) && Scheduled(b) == Scheduled(a)
  {
    ScheduledEquivalent(Linked(a, source, target));
    UnlinkUndoesLinkTasks(a, Scheduled(Linked(a, source, target)), source, target);
    EquivalentScheduled(Unlinked(Scheduled(Linked(a, source, target)), source, target), a);
  }

  /**
    Replacing a task: in the schedule, the updated id carries every field of
    the new task except the derived ones, and every other id its old task's.
  */
  lemma ReplacedScheduledFields(a: seq<Task>, task: Task, k: Id)
    requires Schedulable(Replaced(a, task)) && k in IdSet(a)
    ensures var out := Scheduled(Replaced(a, task));
      k in IdSet(out)
      && Bare(Lookup(out, k).value) == (if k == task.id then Bare(task) else Bare(Lookup(a, k).value))
  {
    var b := Replaced(a, task);
    ReplacedLookup(a, task, k);
    ScheduledIds(b);
    ScheduledLookup(b, k);
  }
}
