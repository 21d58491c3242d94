/**
  The flow-chart view of the selected template (src/components/Canvas/Canvas.js):
  one node per task, one edge per dependency entry, the layered layout that
  centres each node box on the point the layout engine computed for it, and
  the two handlers that turn a drawn or a deleted edge into a store action.
*/
module Canvas {
  import opened Wrappers
  import opened Sequences
  import opened Schedule
  import opened Edits
  import opened Templates
  import opened Store
  import Sidebar

  const NodeWidth: int := 150
  const NodeHeight: int := 100

  datatype Position = Position(x: int, y: int)

  /** A `customNode`: the task as its data, the first group listing it, and where it is drawn. */
  datatype Node = Node(id: Id, data: Task, group: Option<Group>, position: Position)

  /** An edge from a dependency to the task that needs it (never animated). */
  datatype Edge = Edge(id: string, source: Id, target: Id)

  /** The edge for "`target` depends on `source`", with the id `${source}-${target}`. */
  function EdgeFor(source: Id, target: Id): Edge
  {
    Edge(source + "-" + target, source, target)
  }

  // ---------------------------------------------------------------------------
  // Edges

  /** `(task.dependencies || []).map(depId => ...)`: one edge per entry, in list order. */
  function TaskEdges(task: Task): (r: seq<Edge>)
    ensures |r| == |task.dependencies|
    ensures forall j :: 0 <= j < |r| ==> r[j] == EdgeFor(task.dependencies[j], task.id)
  {
    seq(|task.dependencies|, j requires 0 <= j < |task.dependencies| => EdgeFor(task.dependencies[j], task.id))
  }

  /** `tasks.flatMap(...)`: the edges of every task, task by task. */
  function EdgesOf(tasks: seq<Task>): (r: seq<Edge>)
    ensures forall e | e in r ::
      e == EdgeFor(e.source, e.target) && exists i :: 0 <= i < |tasks| && tasks[i].id == e.target && e.source in tasks[i].dependencies
    ensures forall i, d | 0 <= i < |tasks| && d in tasks[i].dependencies :: EdgeFor(d, tasks[i].id) in r
  {
    if tasks == [] then []
    else
      var rest := EdgesOf(tasks[1..]);
      assert forall i :: 1 <= i < |tasks| ==> tasks[i] == tasks[1..][i - 1];
      TaskEdges(tasks[0]) + rest
  }

  /** The number of dependency entries over all tasks, duplicates included. */
  function DependencyCount(tasks: seq<Task>): nat
  {
    if tasks == [] then 0 else |tasks[0].dependencies| + DependencyCount(tasks[1..])
  }

  /** `flatMap` distributes over concatenation. */
  lemma {:induction false} EdgesOfConcat(a: seq<Task>, b: seq<Task>)
    ensures EdgesOf(a + b) == EdgesOf(a) + EdgesOf(b)
  {
    if a != [] {
      assert (a + b)[0] == a[0] && (a + b)[1..] == a[1..] + b;
      EdgesOfConcat(a[1..], b);
      calc {
        EdgesOf(a + b);
        TaskEdges(a[0]) + EdgesOf(a[1..] + b);
        TaskEdges(a[0]) + (EdgesOf(a[1..]) + EdgesOf(b));
        (TaskEdges(a[0]) + EdgesOf(a[1..])) + EdgesOf(b);
      }
    } else {
      assert a + b == b;
    }
  }

  /** There are exactly as many edges as dependency entries. */
  lemma {:induction false} EdgeCount(tasks: seq<Task>)
    ensures |EdgesOf(tasks)| == DependencyCount(tasks)
  {
    if tasks != [] {
      EdgeCount(tasks[1..]);
    }
  }

  /**
    The `j`-th dependency of the `i`-th task has its edge right after the
    edges of the tasks before it: edges come task by task, and within a task
    in dependency order.
  */
  lemma EdgeAt(tasks: seq<Task>, i: nat, j: nat)
    requires i < |tasks| && j < |tasks[i].dependencies|
    ensures |EdgesOf(tasks[..i])| + j < |EdgesOf(tasks)|
    ensures EdgesOf(tasks)[|EdgesOf(tasks[..i])| + j] == EdgeFor(tasks[i].dependencies[j], tasks[i].id)
  {
    assert tasks == tasks[..i] + ([tasks[i]] + tasks[i + 1..]);
    EdgesOfConcat(tasks[..i], [tasks[i]] + tasks[i + 1..]);
    assert ([tasks[i]] + tasks[i + 1..])[1..] == tasks[i + 1..];
  }

  /** Every edge stands for one dependency entry of one task. */
  lemma {:induction false} EdgeOrigin(tasks: seq<Task>, e: Edge) returns (i: nat, j: nat)
    requires e in EdgesOf(tasks)
    ensures i < |tasks| && j < |tasks[i].dependencies|
    ensures e == EdgeFor(tasks[i].dependencies[j], tasks[i].id)
  {
    if e in TaskEdges(tasks[0]) {
      var k :| 0 <= k < |TaskEdges(tasks[0])| && TaskEdges(tasks[0])[k] == e;
      i, j := 0, k;
    } else {
      var i' , j' := EdgeOrigin(tasks[1..], e);
      i, j := i' + 1, j';
    }
  }

  /** Every dependency entry of every task has its edge. */
  lemma EdgeOfEntry(tasks: seq<Task>, i: nat, source: Id)
    requires i < |tasks| && source in tasks[i].dependencies
    ensures EdgeFor(source, tasks[i].id) in EdgesOf(tasks)
  {
    var j :| 0 <= j < |tasks[i].dependencies| && tasks[i].dependencies[j] == source;
    EdgeAt(tasks, i, j);
  }

  /**
    With unique task ids the chart draws exactly the dependency graph the
    engine schedules: an edge from `source` to `target` exactly when `target`
    is a task that depends on `source`.
  */
  lemma EdgeIffStep(tasks: seq<Task>, source: Id, target: Id)
    requires UniqueIds(tasks)
    ensures EdgeFor(source, target) in EdgesOf(tasks) <==> Step(tasks, target, source)
  {
    if EdgeFor(source, target) in EdgesOf(tasks) {
      var i, j := EdgeOrigin(tasks, EdgeFor(source, target));
      LookupUnique(tasks, i);
    }
    if Step(tasks, target, source) {
      var task := Lookup(tasks, target).value;
      var i :| 0 <= i < |tasks| && tasks[i] == task;
      EdgeOfEntry(tasks, i, source);
    }
  }

  /** In a list the engine accepts (unique ids), both ends of every edge are nodes of the chart. */
  lemma EdgesJoinTasks(tasks: seq<Task>, e: Edge)
    requires UniqueIds(tasks) && Closed(tasks) && e in EdgesOf(tasks)
    ensures e.source in IdSet(tasks) && e.target in IdSet(tasks)
  {
    var i, j := EdgeOrigin(tasks, e);
    EdgeIffStep(tasks, e.source, e.target);
  }

  // ---------------------------------------------------------------------------
  // Nodes

  /** `tasks.map(task => ({ id: task.id, data: { ...task, group }, position: { x: 0, y: 0 } }))`. */
  function NodesOf(tasks: seq<Task>, groups: seq<Group>): (r: seq<Node>)
    ensures |r| == |tasks|
    ensures forall i :: 0 <= i < |r| ==> r[i].id == tasks[i].id && r[i].data == tasks[i]
    ensures forall i :: 0 <= i < |r| ==> r[i].group == GroupOf(groups, tasks[i].id)
  {
    seq(|tasks|, i requires 0 <= i < |tasks| => Node(tasks[i].id, tasks[i], GroupOf(groups, tasks[i].id), Position(0, 0)))
  }

  /**
    A node shows a group exactly when some group lists its task, and then
    the first group that does.
  */
  lemma NodeShowsFirstGroup(tasks: seq<Task>, groups: seq<Group>, i: nat)
    requires i < |tasks|
    ensures NodesOf(tasks, groups)[i].group.Some? <==> exists j :: 0 <= j < |groups| && tasks[i].id in groups[j].taskIds
    ensures forall j | 0 <= j < |groups| && tasks[i].id in groups[j].taskIds ::
      (forall k | 0 <= k < j :: tasks[i].id !in groups[k].taskIds) ==> NodesOf(tasks, groups)[i].group == Some(groups[j])
  {
    var g := GroupOf(groups, tasks[i].id);
    if g.Some? {
      var j0 :| 0 <= j0 < |groups| && groups[j0] == g.value && tasks[i].id in g.value.taskIds &&
        forall k :: 0 <= k < j0 ==> tasks[i].id !in groups[k].taskIds;
    }
  }

  /**
    After the sidebar moves a task, its node shows the group it was dropped
    on, and no group when it was dropped on "Ungrouped Tasks".
  */
  lemma DroppedNodeGroup(before: seq<Group>, after: seq<Group>, taskId: Id, groupId: string)
    requires Sidebar.Moved(before, after, taskId, groupId)
    ensures GroupOf(after, taskId).Some? <==> groupId != "ungrouped" && exists j :: 0 <= j < |after| && after[j].id == groupId
    ensures GroupOf(after, taskId).Some? ==> GroupOf(after, taskId).value.id == groupId
  {
    forall j | 0 <= j < |after|
      ensures taskId in after[j].taskIds <==> groupId != "ungrouped" && after[j].id == groupId
    {
      assert taskId in after[j].taskIds <==> multiset(after[j].taskIds)[taskId] > 0;
    }
  }

  // ---------------------------------------------------------------------------
  // Layout

  /**
    The node moved so that its box is centred on the point the layout engine
    gave its id (`x - NODE_WIDTH / 2`, `y - NODE_HEIGHT / 2`), or left as it
    is when the engine has no point for it.
  */
  function Placed(node: Node, laidOut: map<Id, Position>): Node
  {
    if node.id in laidOut then
      node.(position := Position(laidOut[node.id].x - NodeWidth / 2, laidOut[node.id].y - NodeHeight / 2))
    else node
  }

  /** `getLayoutedElements`: every node placed, the edges returned as they are. */
  function Layout(nodes: seq<Node>, edges: seq<Edge>, laidOut: map<Id, Position>): (r: (seq<Node>, seq<Edge>))
    ensures |r.0| == |nodes| && r.1 == edges
    ensures forall i :: 0 <= i < |nodes| ==> r.0[i].(position := nodes[i].position) == nodes[i]
    ensures forall i :: 0 <= i < |nodes| && nodes[i].id in laidOut ==>
      r.0[i].position.x + NodeWidth / 2 == laidOut[nodes[i].id].x && r.0[i].position.y + NodeHeight / 2 == laidOut[nodes[i].id].y
    ensures forall i :: 0 <= i < |nodes| && nodes[i].id !in laidOut ==> r.0[i] == nodes[i]
  {
    (seq(|nodes|, i requires 0 <= i < |nodes| => Placed(nodes[i], laidOut)), edges)
  }

  /**
    The chart drawn for the selected template: nothing without one, else the
    laid-out nodes and edges of its tasks.
  */
  function Elements(selected: Option<Template>, laidOut: map<Id, Position>): (r: Option<(seq<Node>, seq<Edge>)>)
    ensures r.Some? <==> selected.Some?
    ensures r.Some? ==> |r.value.0| == |selected.value.tasks| && r.value.1 == EdgesOf(selected.value.tasks)
    ensures r.Some? ==> forall i :: 0 <= i < |r.value.0| ==>
      r.value.0[i].id == selected.value.tasks[i].id && r.value.0[i].data == selected.value.tasks[i]
  {
    match selected
    case None => None
    case Some(t) => Some(Layout(NodesOf(t.tasks, t.groups), EdgesOf(t.tasks), laidOut))
  }

  /**
    For a template the store holds, every edge drawn joins two drawn nodes
    when its task ids are unique.
  */
  lemma ElementsConnected(t: Template, laidOut: map<Id, Position>, e: Edge)
    requires Schedulable(t.tasks) && UniqueIds(t.tasks)
    requires e in Elements(Some(t), laidOut).value.1
    ensures exists i :: 0 <= i < |t.tasks| && Elements(Some(t), laidOut).value.0[i].id == e.source
    ensures exists i :: 0 <= i < |t.tasks| && Elements(Some(t), laidOut).value.0[i].id == e.target
  {
    SchedulableIff(t.tasks);
    EdgesJoinTasks(t.tasks, e);
    IdSetMembers(t.tasks);
  }

  // ---------------------------------------------------------------------------
  // Handlers

  /**
    `onConnect`: a drawn edge asks the store to make `target` depend on
    `source` in the selected template. A self-loop, a dangling source or an
    edge closing a cycle is refused and nothing changes; an accepted edge is
    listed by the target afterwards.
  */
  method OnConnect(store: TemplateStore, source: Id, target: Id) returns (committed: bool)
    requires store.Valid() && store.selectedTemplate.Some?
    modifies store
    ensures store.Valid()
    ensures var t := old(store.selectedTemplate).value;
      target in IdSet(t.tasks) && (source !in IdSet(t.tasks) || Reaches(t.tasks, source, target)) ==> !committed
    ensures committed ==> store.selectedTemplate.Some? && store.selectedTemplate.value.id == old(store.selectedTemplate).value.id
    ensures committed && target in IdSet(old(store.selectedTemplate).value.tasks) ==>
      source in DepsOf(store.selectedTemplate.value.tasks, target)
    ensures !committed ==> store.templates == old(store.templates) && store.selectedTemplate == old(store.selectedTemplate)
  {
    var t := store.selectedTemplate.value;
    ghost var i :| 0 <= i < |store.templates| && store.templates[i] == t;
    committed := store.AddDependency(t.id, source, target);
    if committed {
      AddDependencyDeps(t, source, target, target);
    }
  }

  /** Some edge of `edges` runs from `source` to `target`. */
  predicate Listed(edges: seq<Edge>, source: Id, target: Id)
  {
    exists e | e in edges :: e.source == source && e.target == target
  }

  /**
    What deleting `edges` from the chart of `t0` leaves in `t`: the same
    tasks, none of the deleted dependencies, every other dependency of `t0`,
    and no new one.
  */
  ghost predicate EdgesDeleted(t0: Template, t: Template, edges: seq<Edge>)
  {
    && IdSet(t.tasks) == IdSet(t0.tasks)
    && (forall e | e in edges :: e.source !in DepsOf(t.tasks, e.target))
    && (forall k: Id, d: Id | d in DepsOf(t0.tasks, k) :: d in DepsOf(t.tasks, k) || Listed(edges, d, k))
    && (forall k: Id, d: Id | d in DepsOf(t.tasks, k) :: d in DepsOf(t0.tasks, k))
  }

  /**
    `t` is `t0` with at most its dependency lists and derived fields changed:
    the same id, name and groups, the tasks in the same order, and every task
    with its name and duration.
  */
  ghost predicate OnlyDependenciesChanged(t0: Template, t: Template)
  {
    && t.id == t0.id && t.name == t0.name && t.groups == t0.groups
    && Keys(t.tasks) == Keys(t0.tasks)
    && forall k | k in IdSet(t0.tasks) ::
         && k in IdSet(t.tasks)
         && Lookup(t.tasks, k).value.name == Lookup(t0.tasks, k).value.name
         && Lookup(t.tasks, k).value.duration == Lookup(t0.tasks, k).value.duration
  }

  /** One more `removeDependency` call extends what has been deleted by one edge. */
  lemma DeleteStep(t0: Template, t: Template, edges: seq<Edge>, n: nat)
    requires Schedulable(t.tasks) && n < |edges| && EdgesDeleted(t0, t, edges[..n])
    requires OnlyDependenciesChanged(t0, t)
    ensures Apply(t, RemoveDependency(edges[n].source, edges[n].target)).Some?
    ensures EdgesDeleted(t0, Apply(t, RemoveDependency(edges[n].source, edges[n].target)).value, edges[..n + 1])
    ensures OnlyDependenciesChanged(t0, Apply(t, RemoveDependency(edges[n].source, edges[n].target)).value)
  {
    var e := edges[n];
    RemoveDependencyKeepsFields(t, e.source, e.target);
    var done, next := edges[..n], edges[..n + 1];
    assert next == done + [e];
    RemoveDependencyExactly(t, e.source, e.target);
    var after := Apply(t, RemoveDependency(e.source, e.target)).value;
    forall x | x in next
      ensures x.source !in DepsOf(after.tasks, x.target)
    {
      if x != e {
        assert x in done;
      }
    }
    forall k: Id, d: Id | d in DepsOf(t0.tasks, k)
      ensures d in DepsOf(after.tasks, k) || Listed(next, d, k)
    {
      if d in DepsOf(t.tasks, k) {
        if d == e.source && k == e.target {
          assert e in next;
        }
      } else {
        var x :| x in done && x.source == d && x.target == k;
        assert x in next;
      }
    }
  }

  /** Every template without the id sits where it did, unchanged. */
  ghost predicate OthersKept(all0: seq<Template>, all: seq<Template>, id: string)
  {
    && |all| == |all0|
    && forall k | 0 <= k < |all0| && all0[k].id != id :: all[k] == all0[k]
  }

  /** One more whole-list action on the id keeps every other template in place. */
  lemma OthersKeptStep(all0: seq<Template>, mid: seq<Template>, id: string, e: Edit)
    requires OthersKept(all0, mid, id) && ApplyToMatching(mid, id, e).Some?
    ensures OthersKept(all0, ApplyToMatching(mid, id, e).value, id)
  {
  }

  /**
    `onEdgesDelete`: each deleted edge asks the store to drop its dependency
    from the selected template. Every call is accepted, and afterwards the
    selected template is what deleting those edges leaves.
  */
  method OnEdgesDelete(store: TemplateStore, edges: seq<Edge>)
    requires store.Valid() && store.selectedTemplate.Some?
    modifies store
    ensures store.Valid() && store.selectedTemplate.Some?
    ensures store.selectedTemplate.value.id == old(store.selectedTemplate).value.id
    ensures EdgesDeleted(old(store.selectedTemplate).value, store.selectedTemplate.value, edges)
    ensures OnlyDependenciesChanged(old(store.selectedTemplate).value, store.selectedTemplate.value)
    ensures |store.templates| == |old(store.templates)|
    ensures forall k | 0 <= k < |store.templates| && old(store.templates)[k].id != old(store.selectedTemplate).value.id ::
      store.templates[k] == old(store.templates)[k]
  {
    var t0 := store.selectedTemplate.value;
    ghost var all0 := store.templates;
    for n := 0 to |edges|
      invariant store.Valid() && store.selectedTemplate.Some?
      invariant store.selectedTemplate.value.id == t0.id
      invariant EdgesDeleted(t0, store.selectedTemplate.value, edges[..n])
      invariant OnlyDependenciesChanged(t0, store.selectedTemplate.value)
      invariant OthersKept(all0, store.templates, t0.id)
    {
      var before := store.selectedTemplate.value;
      ghost var i :| 0 <= i < |store.templates| && store.templates[i] == before;
      DeleteStep(t0, before, edges, n);
      ghost var mid := store.templates;
      var _ := store.RemoveDependency(t0.id, edges[n].source, edges[n].target);
      OthersKeptStep(all0, mid, t0.id, RemoveDependency(edges[n].source, edges[n].target));
    }
    assert edges[..|edges|] == edges;
  }
}
