/**
  What one store action does to one template (src/hooks/useTemplateStore.js,
  lines 63-205): the edit of its tasks or groups, the schedule engine run on the
  edited tasks, and the failure when the engine throws. Then the same edit
  applied by `state.templates.map(...)` to every template with the given id,
  and `find` of the template the store selects afterwards.
*/
module Templates {
  import opened Wrappers
  import opened Sequences
  import opened Schedule
  import opened Edits

  datatype Template = Template(id: string, name: string, tasks: seq<Task>, groups: seq<Group>)

  /** One store action on one template, with the arguments the store passes on. */
  datatype Edit =
    | Update(template: Template)
    | AddTask(task: Task)
    | RemoveTask(taskId: Id)
    | AddDependency(source: Id, target: Id)
    | RemoveDependency(source: Id, target: Id)
    | UpdateTask(task: Task)
    | AddGroup(group: Group)
    | AddTaskToGroup(taskId: Id, groupId: string)
    | RemoveTaskFromGroup(taskId: Id, groupId: string)
  {
    /** The group actions never call the schedule engine. */
    predicate IsGroupEdit()
    {
      AddGroup? || AddTaskToGroup? || RemoveTaskFromGroup?
    }
  }

  /**
    `{ ...t, tasks: calculateStartTimes(tasks) }`, or `None` where the engine
    throws: a dependency on a missing id (a `TypeError`) or a cycle (unbounded
    recursion). `SchedulableIff` says exactly when that is.
  */
  function Reschedule(t: Template, tasks: seq<Task>): Option<Template>
  {
    if Schedulable(tasks) then Some(t.(tasks := Scheduled(tasks))) else None
  }

  /**
    The template that replaces `t` (the body of the `.map` callback), `None`
    when the engine throws. The group actions keep the tasks as they are and
    never fail; the task actions keep the name and the groups.
  */
  function Apply(t: Template, e: Edit): (r: Option<Template>)
    ensures e.IsGroupEdit() ==> r.Some? && r.value.tasks == t.tasks && r.value.id == t.id && r.value.name == t.name
    ensures !e.IsGroupEdit() && !e.Update? && r.Some? ==> r.value.id == t.id && r.value.name == t.name && r.value.groups == t.groups
    ensures e.Update? && r.Some? ==> r.value.(tasks := e.template.tasks) == e.template
  {
    match e
    case Update(u) => Reschedule(u, u.tasks)
    case AddTask(task) => Reschedule(t, WithTask(t.tasks, task))
    case RemoveTask(taskId) => Reschedule(t, WithoutTask(t.tasks, taskId))
    case AddDependency(source, target) => Reschedule(t, Linked(t.tasks, source, target))
    case RemoveDependency(source, target) => Reschedule(t, Unlinked(t.tasks, source, target))
    case UpdateTask(task) => Reschedule(t, Replaced(t.tasks, task))
    case AddGroup(group) => Some(t.(groups := WithGroup(t.groups, group)))
    case AddTaskToGroup(taskId, groupId) => Some(t.(groups := Joined(t.groups, taskId, groupId)))
    case RemoveTaskFromGroup(taskId, groupId) => Some(t.(groups := Left(t.groups, taskId, groupId)))
  }

  /** The group actions replace the groups and nothing else. */
  lemma GroupEditApplies(t: Template, e: Edit)
    ensures e.AddGroup? ==> Apply(t, e) == Some(t.(groups := WithGroup(t.groups, e.group)))
    ensures e.AddTaskToGroup? ==> Apply(t, e) == Some(t.(groups := Joined(t.groups, e.taskId, e.groupId)))
    ensures e.RemoveTaskFromGroup? ==> Apply(t, e) == Some(t.(groups := Left(t.groups, e.taskId, e.groupId)))
  {
  }

  // ---------------------------------------------------------------------------
  // What the engine accepts after each task action

  /** The engine accepts exactly the closed acyclic task lists, and then the template gets its output. */
  lemma RescheduleIff(t: Template, tasks: seq<Task>)
    ensures Reschedule(t, tasks).Some? <==> Closed(tasks) && Acyclic(tasks)
    ensures Reschedule(t, tasks).Some? ==>
      Schedulable(tasks) && Reschedule(t, tasks) == Some(t.(tasks := Scheduled(tasks)))
  {
    SchedulableIff(tasks);
  }

  /** `removeDependency` on one template is the engine run on the unlinked tasks. */
  lemma UnlinkApplies(t: Template, source: Id, target: Id)
    ensures Apply(t, RemoveDependency(source, target)) == Reschedule(t, Unlinked(t.tasks, source, target))
  {
  }

  /** Every accepted edit leaves a task list the engine accepts again. */
  lemma ApplyKeepsSchedulable(t: Template, e: Edit)
    requires Schedulable(t.tasks) && Apply(t, e).Some?
    ensures Schedulable(Apply(t, e).value.tasks)
  {
    match e
    case Update(u) => ScheduledIdempotent(u.tasks);
    case AddTask(task) => ScheduledIdempotent(WithTask(t.tasks, task));
    case RemoveTask(taskId) => ScheduledIdempotent(WithoutTask(t.tasks, taskId));
    case AddDependency(source, target) => ScheduledIdempotent(Linked(t.tasks, source, target));
    case RemoveDependency(source, target) => ScheduledIdempotent(Unlinked(t.tasks, source, target));
    case UpdateTask(task) => ScheduledIdempotent(Replaced(t.tasks, task));
    case _ =>
  }

  /**
    Adding a task never makes the engine throw, and the new task (with its
    dependencies cleared) is scheduled at start time 0 and level 0.
  */
  lemma AddTaskAccepted(t: Template, task: Task)
    requires Schedulable(t.tasks)
    ensures Apply(t, AddTask(task)).Some?
    ensures var out := Apply(t, AddTask(task)).value.tasks;
      IdSet(out) == IdSet(t.tasks) + {task.id}
      && Lookup(out, task.id) == Some(task.(dependencies := [], startTime := 0, level := 0))
  {
    var b := WithTask(t.tasks, task);
    assert Apply(t, AddTask(task)) == Reschedule(t, b);
    SchedulableIff(t.tasks);
    WithTaskGraph(t.tasks, task);
    RescheduleIff(t, b);
    WithTaskLookup(t.tasks, task, task.id);
    ScheduledDeps(b, task.id);
    AddedTaskAtZero(b, task.(dependencies := []));
  }

  /** Removing a dependency never makes the engine throw, and the target no longer lists it. */
  lemma RemoveDependencyAccepted(t: Template, source: Id, target: Id)
    requires Schedulable(t.tasks)
    ensures Apply(t, RemoveDependency(source, target)).Some?
    ensures var out := Apply(t, RemoveDependency(source, target)).value.tasks;
      IdSet(out) == IdSet(t.tasks) && source !in DepsOf(out, target)
  {
    var b := Unlinked(t.tasks, source, target);
    assert Apply(t, RemoveDependency(source, target)) == Reschedule(t, b);
    SchedulableIff(t.tasks);
    UnlinkedGraph(t.tasks, source, target);
    RescheduleIff(t, b);
    UnlinkedDropsSource(t.tasks, source, target);
    ScheduledDeps(b, target);
  }

  /**
    Removing a task is accepted exactly when no other task depends on it; then
    its id is gone and every other id is kept.
  */
  lemma RemoveTaskAcceptedIff(t: Template, taskId: Id)
    requires Schedulable(t.tasks)
    ensures Apply(t, RemoveTask(taskId)).Some? <==> NoDependents(t.tasks, taskId)
    ensures Apply(t, RemoveTask(taskId)).Some? ==>
      IdSet(Apply(t, RemoveTask(taskId)).value.tasks) == IdSet(t.tasks) - {taskId}
  {
    var b := WithoutTask(t.tasks, taskId);
    assert Apply(t, RemoveTask(taskId)) == Reschedule(t, b);
    SchedulableIff(t.tasks);
    WithoutTaskGraph(t.tasks, taskId);
    WithoutTaskIds(t.tasks, taskId);
    RescheduleIff(t, b);
    if Schedulable(b) {
      ScheduledDeps(b, taskId);
    }
  }

  /**
    Making `target` depend on `source` is accepted exactly when `source` is a
    task of the list and does not already depend, directly or through other
    tasks, on `target`; when `target` is not in the list nothing changes.
  */
  lemma AddDependencyAcceptedIff(t: Template, source: Id, target: Id)
    requires Schedulable(t.tasks)
    ensures target in IdSet(t.tasks) ==>
      (Apply(t, AddDependency(source, target)).Some? <==> source in IdSet(t.tasks) && !Reaches(t.tasks, source, target))
    ensures target !in IdSet(t.tasks) ==> Apply(t, AddDependency(source, target)).Some?
  {
    var b := Linked(t.tasks, source, target);
    assert Apply(t, AddDependency(source, target)) == Reschedule(t, b);
    SchedulableIff(t.tasks);
    RescheduleIff(t, b);
    LinkedGraph(t.tasks, source, target);
  }

  /** An accepted dependency is listed by its target afterwards; no other list changes. */
  lemma AddDependencyDeps(t: Template, source: Id, target: Id, k: Id)
    requires Apply(t, AddDependency(source, target)).Some?
    ensures var out := Apply(t, AddDependency(source, target)).value.tasks;
      && IdSet(out) == IdSet(t.tasks)
      && DepsOf(out, k) == if k == target && k in IdSet(t.tasks) then DepsOf(t.tasks, k) + [source] else DepsOf(t.tasks, k)
  {
    var b := Linked(t.tasks, source, target);
    assert Apply(t, AddDependency(source, target)) == Reschedule(t, b);
    RescheduleIff(t, b);
    LinkedDeps(t.tasks, source, target, k);
    ScheduledDeps(b, k);
  }

  /** Removing a dependency only filters `source` out of the target's list. */
  lemma RemoveDependencyDeps(t: Template, source: Id, target: Id, k: Id)
    requires Schedulable(t.tasks)
    ensures Apply(t, RemoveDependency(source, target)).Some?
    ensures var out := Apply(t, RemoveDependency(source, target)).value.tasks;
      && IdSet(out) == IdSet(t.tasks)
      && DepsOf(out, k) == if k == target && k in IdSet(t.tasks) then Without(DepsOf(t.tasks, k), source) else DepsOf(t.tasks, k)
  {
    var b := Unlinked(t.tasks, source, target);
    assert Apply(t, RemoveDependency(source, target)) == Reschedule(t, b);
    SchedulableIff(t.tasks);
    UnlinkedGraph(t.tasks, source, target);
    RescheduleIff(t, b);
    UnlinkedDeps(t.tasks, source, target, k);
    ScheduledDeps(b, k);
  }

  /**
    Removing a dependency drops exactly that one edge of the graph: the
    target no longer lists `source`, every other listed dependency stays,
    and none is added.
  */
  lemma RemoveDependencyExactly(t: Template, source: Id, target: Id)
    requires Schedulable(t.tasks)
    ensures Apply(t, RemoveDependency(source, target)).Some?
    ensures var out := Apply(t, RemoveDependency(source, target)).value.tasks;
      && IdSet(out) == IdSet(t.tasks)
      && source !in DepsOf(out, target)
      && (forall k: Id, d: Id | d in DepsOf(t.tasks, k) && (d != source || k != target) :: d in DepsOf(out, k))
      && (forall k: Id, d: Id | d in DepsOf(out, k) :: d in DepsOf(t.tasks, k))
  {
    RemoveDependencyDeps(t, source, target, target);
    var out := Apply(t, RemoveDependency(source, target)).value.tasks;
    forall k: Id, d: Id | d in DepsOf(t.tasks, k) && (d != source || k != target)
      ensures d in DepsOf(out, k)
    {
      RemoveDependencyDeps(t, source, target, k);
      if k == target && k in IdSet(t.tasks) {
        assert multiset(DepsOf(out, k))[d] == multiset(DepsOf(t.tasks, k))[d];
      }
    }
    forall k: Id, d: Id | d in DepsOf(out, k)
      ensures d in DepsOf(t.tasks, k)
    {
      RemoveDependencyDeps(t, source, target, k);
      if k == target && k in IdSet(t.tasks) {
        assert multiset(DepsOf(out, k))[d] == multiset(DepsOf(t.tasks, k))[d];
      }
    }
  }

  /**
    Removing a dependency changes nothing but dependency lists and derived
    fields: the template keeps its id, name and groups, its tasks keep their
    order, and every task keeps its name and duration.
  */
  lemma RemoveDependencyKeepsFields(t: Template, source: Id, target: Id)
    requires Schedulable(t.tasks)
    ensures Apply(t, RemoveDependency(source, target)).Some?
    ensures var out := Apply(t, RemoveDependency(source, target)).value;
      && out.id == t.id && out.name == t.name && out.groups == t.groups
      && Keys(out.tasks) == Keys(t.tasks)
      && forall k | k in IdSet(t.tasks) ::
           && k in IdSet(out.tasks)
           && Lookup(out.tasks, k).value.name == Lookup(t.tasks, k).value.name
           && Lookup(out.tasks, k).value.duration == Lookup(t.tasks, k).value.duration
  {
    var b := Unlinked(t.tasks, source, target);
    assert Schedulable(b) by {
      SchedulableIff(t.tasks);
      UnlinkedGraph(t.tasks, source, target);
      SchedulableIff(b);
    }
    assert Apply(t, RemoveDependency(source, target)) == Some(t.(tasks := Scheduled(b)));
    UnlinkedScheduledFields(t.tasks, source, target);
  }

  /** A task made to depend on itself always makes the engine throw. */
  lemma SelfDependencyRejected(t: Template, taskId: Id)
    requires taskId in IdSet(t.tasks)
    ensures Apply(t, AddDependency(taskId, taskId)).None?
  {
    var b := Linked(t.tasks, taskId, taskId);
    assert Apply(t, AddDependency(taskId, taskId)) == Reschedule(t, b);
    LinkedDeps(t.tasks, taskId, taskId, taskId);
    SelfStepCycle(b, taskId);
    RescheduleIff(t, b);
  }

  /** A dependency on an id that is not a task of the list always makes the engine throw. */
  lemma DanglingDependencyRejected(t: Template, source: Id, target: Id)
    requires target in IdSet(t.tasks) && source !in IdSet(t.tasks)
    ensures Apply(t, AddDependency(source, target)).None?
  {
    var b := Linked(t.tasks, source, target);
    assert Apply(t, AddDependency(source, target)) == Reschedule(t, b);
    LinkedDeps(t.tasks, source, target, target);
    DanglingStepOpen(b, target, source);
    RescheduleIff(t, b);
  }

  /**
    Adding a dependency that was not there and then removing it gives back the
    tasks the engine produced before, when it accepted the addition.
  */
  lemma UnlinkUndoesLink(t: Template, source: Id, target: Id)
    requires Schedulable(t.tasks) && source !in DepsOf(t.tasks, target)
    requires Apply(t, AddDependency(source, target)).Some?
    ensures Apply(Apply(t, AddDependency(source, target)).value, RemoveDependency(source, target))
      == Some(t.(tasks := Scheduled(t.tasks)))
  {
    var linked := Linked(t.tasks, source, target);
    assert Apply(t, AddDependency(source, target)) == Reschedule(t, linked);
    RescheduleIff(t, linked);
    var t1 := t.(tasks := Scheduled(linked));
    var b := Unlinked(Scheduled(linked), source, target);
    UnlinkApplies(t1, source, target);
    UnlinkAfterLink(t.tasks, source, target);
    RescheduleIff(t1, b);
  }

  /**
    Replacing a task: when the engine accepts, the updated id carries every
    field of the new task except the derived ones, and every other id is
    copied unchanged.
  */
  lemma UpdateTaskFields(t: Template, task: Task, k: Id)
    requires Apply(t, UpdateTask(task)).Some? && k in IdSet(t.tasks)
    ensures var out := Apply(t, UpdateTask(task)).value.tasks;
      k in IdSet(out)
      && Bare(Lookup(out, k).value) == (if k == task.id then Bare(task) else Bare(Lookup(t.tasks, k).value))
  {
    var b := Replaced(t.tasks, task);
    assert Apply(t, UpdateTask(task)) == Reschedule(t, b);
    RescheduleIff(t, b);
    ReplacedScheduledFields(t.tasks, task, k);
  }

  // ---------------------------------------------------------------------------
  // All templates with the id

  /** `state.templates.map(t => t.id === templateId ? <edit of t> : t)`, `None` when an edit throws. */
  function ApplyToMatching(templates: seq<Template>, templateId: string, e: Edit): (r: Option<seq<Template>>)
    ensures r.Some? <==> forall i | 0 <= i < |templates| && templates[i].id == templateId :: Apply(templates[i], e).Some?
    ensures r.Some? ==> |r.value| == |templates| && forall i | 0 <= i < |templates| ::
      r.value[i] == if templates[i].id == templateId then Apply(templates[i], e).value else templates[i]
  {
    if templates == [] then Some([])
    else
      var head := if templates[0].id == templateId then Apply(templates[0], e) else Some(templates[0]);
      var tail := ApplyToMatching(templates[1..], templateId, e);
      if head.Some? && tail.Some? then
        var r := [head.value] + tail.value;
        assert forall i | 1 <= i < |templates| :: templates[1..][i - 1] == templates[i] && r[i] == tail.value[i - 1];
        Some(r)
      else
        None
  }

  /** `templates.find(t => t.id === id)`: the first template with that id. */
  function Find(templates: seq<Template>, id: string): (r: Option<Template>)
    ensures r.Some? <==> exists i :: 0 <= i < |templates| && templates[i].id == id
    ensures r.Some? ==> r.value.id == id
    ensures r.Some? ==> exists i :: 0 <= i < |templates| && templates[i] == r.value && forall j :: 0 <= j < i ==> templates[j].id != id
  {
    if templates == [] then None
    else if templates[0].id == id then Some(templates[0])
    else
      var r := Find(templates[1..], id);
      assert forall i | 1 <= i < |templates| :: templates[1..][i - 1] == templates[i];
      if r.Some? then
        var i :| 0 <= i < |templates[1..]| && templates[1..][i] == r.value && forall j :: 0 <= j < i ==> templates[1..][j].id != id;
        assert templates[i + 1] == r.value;
        r
      else
        r
  }

  /** Appending a template changes `find` only for an id no earlier template has. */
  lemma {:induction false} FindAppend(templates: seq<Template>, t: Template, id: string)
    ensures Find(templates + [t], id) ==
      if Find(templates, id).Some? then Find(templates, id) else if t.id == id then Some(t) else None
  {
    if templates != [] {
      assert (templates + [t])[1..] == templates[1..] + [t];
      FindAppend(templates[1..], t, id);
    }
  }

  /** A template found by its id is found again by its own id. */
  lemma FindById(templates: seq<Template>, id: string)
    requires Find(templates, id).Some?
    ensures Find(templates, Find(templates, id).value.id) == Find(templates, id)
  {
  }

  /**
    After the map, `find` by the same id returns the edited version of the
    template it returned before, and nothing when there was none.
  */
  lemma {:induction false} FindAfterApply(templates: seq<Template>, templateId: string, e: Edit)
    requires ApplyToMatching(templates, templateId, e).Some?
    requires e.Update? ==> e.template.id == templateId
    ensures var r := ApplyToMatching(templates, templateId, e).value;
      Find(r, templateId) == match Find(templates, templateId)
        case None => None
        case Some(t) => Apply(t, e)
  {
    if templates != [] {
      var r := ApplyToMatching(templates, templateId, e).value;
      FindAfterApply(templates[1..], templateId, e);
      assert r[1..] == ApplyToMatching(templates[1..], templateId, e).value;
    }
  }

  /** Every template the map produces holds tasks the engine accepts, when every input template did. */
  lemma ApplyToMatchingSchedulable(templates: seq<Template>, templateId: string, e: Edit)
    requires forall i | 0 <= i < |templates| :: Schedulable(templates[i].tasks)
    requires ApplyToMatching(templates, templateId, e).Some?
    ensures var r := ApplyToMatching(templates, templateId, e).value;
      forall i | 0 <= i < |r| :: Schedulable(r[i].tasks)
  {
    var r := ApplyToMatching(templates, templateId, e).value;
    forall i | 0 <= i < |r|
      ensures Schedulable(r[i].tasks)
    {
      if templates[i].id == templateId {
        ApplyKeepsSchedulable(templates[i], e);
      }
    }
  }
}
