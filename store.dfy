/**
  The template store (src/hooks/useTemplateStore.js, lines 42-206): the list of
  templates and the selected one, updated in place by the store's actions.
  Every action maps over the templates with the given id and then selects the
  first of them again with `find`. When the schedule engine throws inside the
  map, the whole `set` call throws and the state is left as it was; the
  actions report that as `committed == false`.
*/
module Store {
  import opened Wrappers
  import opened Schedule
  import opened Edits
  import opened Templates

  /** Every template's tasks are a list the engine accepts. */
  ghost predicate AllSchedulable(templates: seq<Template>)
  {
    forall i | 0 <= i < |templates| :: Schedulable(templates[i].tasks)
  }

  /** The template `find` returns after the map: the edited version of the one it returned before. */
  function Reselected(templates: seq<Template>, templateId: string, e: Edit): Option<Template>
  {
    match Find(templates, templateId)
    case None => None
    case Some(t) => Apply(t, e)
  }

  // ---------------------------------------------------------------------------
  // When each action commits

  /** Adding a task to every template with the id never makes the engine throw. */
  lemma AddTaskCommits(templates: seq<Template>, templateId: string, task: Task)
    requires AllSchedulable(templates)
    ensures ApplyToMatching(templates, templateId, AddTask(task)).Some?
  {
    forall i | 0 <= i < |templates| && templates[i].id == templateId
      ensures Apply(templates[i], AddTask(task)).Some?
    {
      AddTaskAccepted(templates[i], task);
    }
  }

  /** Removing a dependency never makes the engine throw. */
  lemma RemoveDependencyCommits(templates: seq<Template>, templateId: string, source: Id, target: Id)
    requires AllSchedulable(templates)
    ensures ApplyToMatching(templates, templateId, RemoveDependency(source, target)).Some?
  {
    forall i | 0 <= i < |templates| && templates[i].id == templateId
      ensures Apply(templates[i], RemoveDependency(source, target)).Some?
    {
      RemoveDependencyAccepted(templates[i], source, target);
    }
  }

  /** The group actions always commit and leave every template's tasks as they were. */
  lemma GroupEditCommits(templates: seq<Template>, templateId: string, e: Edit)
    requires e.IsGroupEdit()
    ensures ApplyToMatching(templates, templateId, e).Some?
    ensures var r := ApplyToMatching(templates, templateId, e).value;
      forall i | 0 <= i < |r| :: r[i].tasks == templates[i].tasks && r[i].id == templates[i].id
  {
  }

  /** Removing a task commits exactly when no task of a template with the id depends on it. */
  lemma RemoveTaskCommitsIff(templates: seq<Template>, templateId: string, taskId: Id)
    requires AllSchedulable(templates)
    ensures ApplyToMatching(templates, templateId, RemoveTask(taskId)).Some? <==>
      forall i | 0 <= i < |templates| && templates[i].id == templateId :: NoDependents(templates[i].tasks, taskId)
  {
    forall i | 0 <= i < |templates| && templates[i].id == templateId
      ensures Apply(templates[i], RemoveTask(taskId)).Some? <==> NoDependents(templates[i].tasks, taskId)
    {
      RemoveTaskAcceptedIff(templates[i], taskId);
    }
  }

  /**
    Adding a dependency commits exactly when, in every template with the id
    that holds the target, the source is a task that does not already reach
    the target.
  */
  lemma AddDependencyCommitsIff(templates: seq<Template>, templateId: string, source: Id, target: Id)
    requires AllSchedulable(templates)
    ensures ApplyToMatching(templates, templateId, AddDependency(source, target)).Some? <==>
      forall i | 0 <= i < |templates| && templates[i].id == templateId && target in IdSet(templates[i].tasks) ::
        source in IdSet(templates[i].tasks) && !Reaches(templates[i].tasks, source, target)
  {
    forall i | 0 <= i < |templates| && templates[i].id == templateId
      ensures Apply(templates[i], AddDependency(source, target)).Some? <==>
        (target in IdSet(templates[i].tasks) ==>
          source in IdSet(templates[i].tasks) && !Reaches(templates[i].tasks, source, target))
    {
      AddDependencyAcceptedIff(templates[i], source, target);
    }
  }

  /** Replacing a task commits exactly when the edited list of every template with the id is closed and acyclic. */
  lemma UpdateTaskCommitsIff(templates: seq<Template>, templateId: string, task: Task)
    ensures ApplyToMatching(templates, templateId, UpdateTask(task)).Some? <==>
      forall i | 0 <= i < |templates| && templates[i].id == templateId ::
        Closed(Replaced(templates[i].tasks, task)) && Acyclic(Replaced(templates[i].tasks, task))
  {
    forall i | 0 <= i < |templates| && templates[i].id == templateId
      ensures Apply(templates[i], UpdateTask(task)).Some? <==>
        Closed(Replaced(templates[i].tasks, task)) && Acyclic(Replaced(templates[i].tasks, task))
    {
      var b := Replaced(templates[i].tasks, task);
      assert Apply(templates[i], UpdateTask(task)) == Reschedule(templates[i], b);
      RescheduleIff(templates[i], b);
    }
  }

  /** Replacing a whole template commits exactly when no template has its id or its tasks are closed and acyclic. */
  lemma UpdateTemplateCommitsIff(templates: seq<Template>, updated: Template)
    ensures ApplyToMatching(templates, updated.id, Update(updated)).Some? <==>
      Find(templates, updated.id).None? || (Closed(updated.tasks) && Acyclic(updated.tasks))
  {
    RescheduleIff(updated, updated.tasks);
    if Find(templates, updated.id).Some? {
      var i :| 0 <= i < |templates| && templates[i].id == updated.id;
      assert Apply(templates[i], Update(updated)) == Reschedule(updated, updated.tasks);
    }
  }

  // ---------------------------------------------------------------------------
  // The store

  class TemplateStore {
    var templates: seq<Template>
    var selectedTemplate: Option<Template>

    /**
      Every template holds tasks the engine accepts, and the selected template
      is the one `find` returns for its id.
    */
    ghost predicate Valid()
      reads this
    {
      && AllSchedulable(templates)
      && (selectedTemplate.Some? ==> Find(templates, selectedTemplate.value.id) == selectedTemplate)
    }

    /** `templates: []`, `selectedTemplate: null`. */
    constructor ()
      ensures Valid() && templates == [] && selectedTemplate == None
    {
      templates := [];
      selectedTemplate := None;
    }

    /**
      `addTemplate`: a new empty template, appended and selected. Its id is
      the clock reading `Date.now().toString()`, passed in as `id`; a clock
      reading is taken to be fresh.
    */
    method AddTemplate(id: string, templateName: string)
      requires Valid() && forall i | 0 <= i < |templates| :: templates[i].id != id
      modifies this
      ensures Valid()
      ensures templates == old(templates) + [Template(id, templateName, [], [])]
      ensures selectedTemplate == Some(Template(id, templateName, [], []))
    {
      var newTemplate := Template(id, templateName, [], []);
      assert Schedulable(newTemplate.tasks);
      FindAppend(templates, newTemplate, id);
      if selectedTemplate.Some? {
        FindAppend(templates, newTemplate, selectedTemplate.value.id);
      }
      templates := templates + [newTemplate];
      selectedTemplate := Some(newTemplate);
    }

    /** `selectTemplate`: the first template with the id, or nothing. */
    method SelectTemplate(templateId: string)
      requires Valid()
      modifies this
      ensures Valid()
      ensures templates == old(templates) && selectedTemplate == Find(templates, templateId)
    {
      selectedTemplate := Find(templates, templateId);
    }

    /**
      The shape every editing action shares: map the edit over the templates
      with the id, then select the first of them; nothing changes when an
      edit makes the engine throw.
    */
    method Commit(templateId: string, e: Edit) returns (committed: bool)
      requires Valid() && (e.Update? ==> e.template.id == templateId)
      modifies this
      ensures Valid()
      ensures committed == ApplyToMatching(old(templates), templateId, e).Some?
      ensures committed ==> ApplyToMatching(old(templates), templateId, e) == Some(templates)
      ensures committed ==> selectedTemplate == Reselected(old(templates), templateId, e)
      ensures committed ==> selectedTemplate == Find(templates, templateId)
      ensures committed && old(selectedTemplate).Some? && old(selectedTemplate).value.id == templateId ==>
        selectedTemplate == Apply(old(selectedTemplate).value, e)
      ensures committed ==> |templates| == |old(templates)|
      ensures committed ==>
        forall k | 0 <= k < |templates| && old(templates)[k].id != templateId :: templates[k] == old(templates)[k]
      ensures !committed ==> templates == old(templates) && selectedTemplate == old(selectedTemplate)
    {
      var r := ApplyToMatching(templates, templateId, e);
      if r.None? {
        return false;
      }
      ApplyToMatchingSchedulable(templates, templateId, e);
      FindAfterApply(templates, templateId, e);
      assert Find(r.value, templateId) == Reselected(templates, templateId, e);
      if Find(r.value, templateId).Some? {
        FindById(r.value, templateId);
      }
      if selectedTemplate.Some? && selectedTemplate.value.id == templateId {
        assert Find(templates, templateId) == selectedTemplate;
      }
      templates := r.value;
      selectedTemplate := Find(r.value, templateId);
      return true;
    }

    /** `updateTemplate`: every template with the updated one's id replaced by it, tasks rescheduled. */
    method UpdateTemplate(updated: Template) returns (committed: bool)
      requires Valid()
      modifies this
      ensures Valid()
      ensures committed <==> Find(old(templates), updated.id).None? || (Closed(updated.tasks) && Acyclic(updated.tasks))
      ensures committed ==> ApplyToMatching(old(templates), updated.id, Edit.Update(updated)) == Some(templates)
      ensures committed ==> selectedTemplate == Find(templates, updated.id)
      ensures committed ==> (selectedTemplate.Some? <==> Find(old(templates), updated.id).Some?)
      ensures committed && selectedTemplate.Some? ==>
        selectedTemplate.value.(tasks := updated.tasks) == updated
        && selectedTemplate.value.tasks == Scheduled(updated.tasks)
      ensures !committed ==> templates == old(templates) && selectedTemplate == old(selectedTemplate)
    {
      UpdateTemplateCommitsIff(templates, updated);
      RescheduleIff(updated, updated.tasks);
      committed := Commit(updated.id, Edit.Update(updated));
    }

    /** `addTaskToTemplate`: always commits; the selected template holds the new task at time 0, level 0. */
    method AddTaskToTemplate(templateId: string, task: Task) returns (committed: bool)
      requires Valid()
      modifies this
      ensures Valid() && committed
      ensures ApplyToMatching(old(templates), templateId, Edit.AddTask(task)) == Some(templates)
      ensures selectedTemplate == Find(templates, templateId)
      ensures selectedTemplate.Some? ==>
        Lookup(selectedTemplate.value.tasks, task.id) == Some(task.(dependencies := [], startTime := 0, level := 0))
      ensures old(selectedTemplate).Some? && old(selectedTemplate).value.id == templateId ==>
        selectedTemplate == Apply(old(selectedTemplate).value, Edit.AddTask(task))
    {
      AddTaskCommits(templates, templateId, task);
      var before := Find(templates, templateId);
      if before.Some? {
        AddTaskAccepted(before.value, task);
      }
      committed := Commit(templateId, Edit.AddTask(task));
    }

    /**
      `removeTaskFromTemplate`: commits exactly when no remaining task depends
      on the removed one; then the selected template no longer holds it.
    */
    method RemoveTaskFromTemplate(templateId: string, taskId: Id) returns (committed: bool)
      requires Valid()
      modifies this
      ensures Valid()
      ensures committed <==>
        forall i | 0 <= i < |old(templates)| && old(templates)[i].id == templateId :: NoDependents(old(templates)[i].tasks, taskId)
      ensures committed ==> ApplyToMatching(old(templates), templateId, Edit.RemoveTask(taskId)) == Some(templates)
      ensures committed ==> selectedTemplate == Find(templates, templateId)
      ensures committed && selectedTemplate.Some? ==> taskId !in IdSet(selectedTemplate.value.tasks)
      ensures !committed ==> templates == old(templates) && selectedTemplate == old(selectedTemplate)
    {
      RemoveTaskCommitsIff(templates, templateId, taskId);
      var before := Find(templates, templateId);
      if before.Some? {
        RemoveTaskAcceptedIff(before.value, taskId);
      }
      committed := Commit(templateId, Edit.RemoveTask(taskId));
    }

    /**
      `addDependency`: commits exactly when, in every template with the id
      that holds the target, the source is a task that does not already reach
      the target (otherwise the engine meets a missing id or a cycle).
    */
    method AddDependency(templateId: string, source: Id, target: Id) returns (committed: bool)
      requires Valid()
      modifies this
      ensures Valid()
      ensures committed <==>
        forall i | 0 <= i < |old(templates)| && old(templates)[i].id == templateId && target in IdSet(old(templates)[i].tasks) ::
          source in IdSet(old(templates)[i].tasks) && !Reaches(old(templates)[i].tasks, source, target)
      ensures committed ==> ApplyToMatching(old(templates), templateId, Edit.AddDependency(source, target)) == Some(templates)
      ensures committed ==> selectedTemplate == Find(templates, templateId)
      ensures committed && old(selectedTemplate).Some? && old(selectedTemplate).value.id == templateId ==>
        selectedTemplate == Apply(old(selectedTemplate).value, Edit.AddDependency(source, target))
      ensures !committed ==> templates == old(templates) && selectedTemplate == old(selectedTemplate)
    {
      AddDependencyCommitsIff(templates, templateId, source, target);
      committed := Commit(templateId, Edit.AddDependency(source, target));
    }

    /** `removeDependency`: always commits; the selected template's target no longer lists the source. */
    method RemoveDependency(templateId: string, source: Id, target: Id) returns (committed: bool)
      requires Valid()
      modifies this
      ensures Valid() && committed
      ensures ApplyToMatching(old(templates), templateId, Edit.RemoveDependency(source, target)) == Some(templates)
      ensures selectedTemplate == Find(templates, templateId)
      ensures selectedTemplate.Some? ==> source !in DepsOf(selectedTemplate.value.tasks, target)
      ensures old(selectedTemplate).Some? && old(selectedTemplate).value.id == templateId ==>
        selectedTemplate == Apply(old(selectedTemplate).value, Edit.RemoveDependency(source, target))
    {
      RemoveDependencyCommits(templates, templateId, source, target);
      var before := Find(templates, templateId);
      if before.Some? {
        RemoveDependencyAccepted(before.value, source, target);
      }
      committed := Commit(templateId, Edit.RemoveDependency(source, target));
    }

    /** `addGroupToTemplate`: always commits; the new group, emptied, is appended. */
    method AddGroupToTemplate(templateId: string, group: Group) returns (committed: bool)
      requires Valid()
      modifies this
      ensures Valid() && committed
      ensures ApplyToMatching(old(templates), templateId, Edit.AddGroup(group)) == Some(templates)
      ensures selectedTemplate == Find(templates, templateId)
      ensures selectedTemplate == Reselected(old(templates), templateId, Edit.AddGroup(group))
      ensures old(selectedTemplate).Some? && old(selectedTemplate).value.id == templateId ==>
        selectedTemplate == Some(old(selectedTemplate).value.(groups := WithGroup(old(selectedTemplate).value.groups, group)))
      ensures |templates| == |old(templates)|
      ensures forall i | 0 <= i < |templates| :: templates[i].tasks == old(templates)[i].tasks
      ensures forall k | 0 <= k < |templates| && old(templates)[k].id != templateId :: templates[k] == old(templates)[k]
    {
      GroupEditCommits(templates, templateId, Edit.AddGroup(group));
      if selectedTemplate.Some? {
        GroupEditApplies(selectedTemplate.value, Edit.AddGroup(group));
      }
      committed := Commit(templateId, Edit.AddGroup(group));
    }

    /** `addTaskToGroup`: always commits and leaves every task list as it was. */
    method AddTaskToGroup(templateId: string, taskId: Id, groupId: string) returns (committed: bool)
      requires Valid()
      modifies this
      ensures Valid() && committed
      ensures ApplyToMatching(old(templates), templateId, Edit.AddTaskToGroup(taskId, groupId)) == Some(templates)
      ensures selectedTemplate == Find(templates, templateId)
      ensures selectedTemplate == Reselected(old(templates), templateId, Edit.AddTaskToGroup(taskId, groupId))
      ensures old(selectedTemplate).Some? && old(selectedTemplate).value.id == templateId ==>
        selectedTemplate == Some(old(selectedTemplate).value.(groups := Joined(old(selectedTemplate).value.groups, taskId, groupId)))
      ensures |templates| == |old(templates)|
      ensures forall i | 0 <= i < |templates| :: templates[i].tasks == old(templates)[i].tasks
      ensures forall k | 0 <= k < |templates| && old(templates)[k].id != templateId :: templates[k] == old(templates)[k]
    {
      GroupEditCommits(templates, templateId, Edit.AddTaskToGroup(taskId, groupId));
      if selectedTemplate.Some? {
        GroupEditApplies(selectedTemplate.value, Edit.AddTaskToGroup(taskId, groupId));
      }
      committed := Commit(templateId, Edit.AddTaskToGroup(taskId, groupId));
    }

    /** `removeTaskFromGroup`: always commits and leaves every task list as it was. */
    method RemoveTaskFromGroup(templateId: string, taskId: Id, groupId: string) returns (committed: bool)
      requires Valid()
      modifies this
      ensures Valid() && committed
      ensures ApplyToMatching(old(templates), templateId, Edit.RemoveTaskFromGroup(taskId, groupId)) == Some(templates)
      ensures selectedTemplate == Find(templates, templateId)
      ensures selectedTemplate == Reselected(old(templates), templateId, Edit.RemoveTaskFromGroup(taskId, groupId))
      ensures old(selectedTemplate).Some? && old(selectedTemplate).value.id == templateId ==>
        selectedTemplate == Some(old(selectedTemplate).value.(groups := Left(old(selectedTemplate).value.groups, taskId, groupId)))
      ensures |templates| == |old(templates)|
      ensures forall i | 0 <= i < |templates| :: templates[i].tasks == old(templates)[i].tasks
      ensures forall k | 0 <= k < |templates| && old(templates)[k].id != templateId :: templates[k] == old(templates)[k]
    {
      GroupEditCommits(templates, templateId, Edit.RemoveTaskFromGroup(taskId, groupId));
      if selectedTemplate.Some? {
        GroupEditApplies(selectedTemplate.value, Edit.RemoveTaskFromGroup(taskId, groupId));
      }
      committed := Commit(templateId, Edit.RemoveTaskFromGroup(taskId, groupId));
    }

    /**
      `updateTask`: every task with the updated one's id replaced; commits
      exactly when the edited lists are closed and acyclic.
    */
    method UpdateTask(templateId: string, task: Task) returns (committed: bool)
      requires Valid()
      modifies this
      ensures Valid()
      ensures committed <==>
        forall i | 0 <= i < |old(templates)| && old(templates)[i].id == templateId ::
          Closed(Replaced(old(templates)[i].tasks, task)) && Acyclic(Replaced(old(templates)[i].tasks, task))
      ensures committed ==> ApplyToMatching(old(templates), templateId, Edit.UpdateTask(task)) == Some(templates)
      ensures committed ==> selectedTemplate == Find(templates, templateId)
      ensures !committed ==> templates == old(templates) && selectedTemplate == old(selectedTemplate)
    {
      UpdateTaskCommitsIff(templates, templateId, task);
      committed := Commit(templateId, Edit.UpdateTask(task));
    }
  }
}
