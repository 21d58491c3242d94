/**
  The sidebar's logic (src/components/Sidebar/Sidebar.js): the input guards
  in front of the store's add actions, the drop handler that moves a task
  between the groups of the selected template, and the task lists it shows
  under each group and under "Ungrouped Tasks".
*/
module Sidebar {
  import opened Wrappers
  import opened Sequences
  import opened Schedule
  import opened Edits
  import opened Templates
  import opened Store

  // ---------------------------------------------------------------------------
  // String.prototype.trim

  /** The characters `trim` removes at either end: white space and line terminators. */
  const Spaces: set<char> := {
    '\t', '\n', '\U{000B}', '\U{000C}', '\r', ' ', '\U{00A0}', '\U{1680}',
    '\U{2000}', '\U{2001}', '\U{2002}', '\U{2003}', '\U{2004}', '\U{2005}',
    '\U{2006}', '\U{2007}', '\U{2008}', '\U{2009}', '\U{200A}',
    '\U{2028}', '\U{2029}', '\U{202F}', '\U{205F}', '\U{3000}', '\U{FEFF}'
  }

  predicate IsSpace(c: char)
  {
    c in Spaces
  }

  /** The first index from `i` on that does not hold white space (`|s|` if none). */
  function TextStart(s: string, i: nat): (k: nat)
    requires i <= |s|
    ensures i <= k <= |s|
    ensures forall j :: i <= j < k ==> IsSpace(s[j])
    ensures k < |s| ==> !IsSpace(s[k])
    decreases |s| - i
  {
    if i < |s| && IsSpace(s[i]) then TextStart(s, i + 1) else i
  }

  /** The end of the text in `s[lo..hi]`: every character from it up to `hi` is white space. */
  function TextEnd(s: string, lo: nat, hi: nat): (k: nat)
    requires lo <= hi <= |s|
    ensures lo <= k <= hi
    ensures forall j :: k <= j < hi ==> IsSpace(s[j])
    ensures k > lo ==> !IsSpace(s[k - 1])
  {
    if hi > lo && IsSpace(s[hi - 1]) then TextEnd(s, lo, hi - 1) else hi
  }

  /** `s.trim()`: `s` without its leading and trailing white space. */
  function Trim(s: string): (r: string)
    ensures exists lo, hi ::
      && 0 <= lo <= hi <= |s| && r == s[lo..hi]
      && (forall j :: 0 <= j < lo ==> IsSpace(s[j]))
      && (forall j :: hi <= j < |s| ==> IsSpace(s[j]))
    ensures r != [] ==> !IsSpace(r[0]) && !IsSpace(r[|r| - 1])
  {
    var lo := TextStart(s, 0);
    s[lo..TextEnd(s, lo, |s|)]
  }

  /**
    The trimmed string is empty exactly when `s` is all white space;
    otherwise it neither starts nor ends with white space.
  */
  lemma TrimEmptyIff(s: string)
    ensures Trim(s) == [] <==> forall j :: 0 <= j < |s| ==> IsSpace(s[j])
    ensures Trim(s) != [] ==> !IsSpace(Trim(s)[0]) && !IsSpace(Last(Trim(s)))
  {
    var lo := TextStart(s, 0);
    var hi := TextEnd(s, lo, |s|);
    if lo < |s| {
      assert !IsSpace(s[lo]);
      assert hi > lo;
      assert Trim(s)[0] == s[lo];
    }
  }

  /** Trimming twice trims no more than once. */
  lemma TrimIdempotent(s: string)
    ensures Trim(Trim(s)) == Trim(s)
  {
    var r := Trim(s);
    TrimEmptyIff(s);
    if r != [] {
      assert TextStart(r, 0) == 0;
      assert TextEnd(r, 0, |r|) == |r|;
    }
  }

  // ---------------------------------------------------------------------------
  // The add handlers

  /**
    `handleAddTemplate`: a template named by the trimmed input, added only
    when that is not empty. `now` is the clock reading the store turns into
    the new id.
  */
  method HandleAddTemplate(store: TemplateStore, newTemplateName: string, now: string)
    requires store.Valid() && forall i | 0 <= i < |store.templates| :: store.templates[i].id != now
    modifies store
    ensures store.Valid()
    ensures Trim(newTemplateName) != [] ==>
      store.templates == old(store.templates) + [Template(now, Trim(newTemplateName), [], [])]
      && store.selectedTemplate == Some(Template(now, Trim(newTemplateName), [], []))
    ensures Trim(newTemplateName) == [] ==>
      store.templates == old(store.templates) && store.selectedTemplate == old(store.selectedTemplate)
  {
    var name := Trim(newTemplateName);
    if name != [] {
      store.AddTemplate(now, name);
    }
  }

  /**
    `handleAddGroup`: a group `group-<now>` named by the trimmed input, with
    colour `#<randomHex>` and no tasks, added to the selected template only
    when the name is not empty and a template is selected.
  */
  method HandleAddGroup(store: TemplateStore, newGroupName: string, now: string, randomHex: string)
    requires store.Valid()
    modifies store
    ensures store.Valid()
    ensures Trim(newGroupName) != [] && old(store.selectedTemplate).Some? ==>
      var before := old(store.selectedTemplate).value;
      store.selectedTemplate == Some(before.(groups := before.groups + [Group("group-" + now, Trim(newGroupName), "#" + randomHex, [])]))
    ensures Trim(newGroupName) != [] && old(store.selectedTemplate).Some? ==>
      ApplyToMatching(old(store.templates), old(store.selectedTemplate).value.id,
                      Edit.AddGroup(Group("group-" + now, Trim(newGroupName), "#" + randomHex, []))) == Some(store.templates)
    ensures Trim(newGroupName) == [] || old(store.selectedTemplate).None? ==>
      store.templates == old(store.templates) && store.selectedTemplate == old(store.selectedTemplate)
  {
    var name := Trim(newGroupName);
    if name != [] && store.selectedTemplate.Some? {
      var newGroup := Group("group-" + now, name, "#" + randomHex, []);
      var committed := store.AddGroupToTemplate(store.selectedTemplate.value.id, newGroup);
    }
  }

  /**
    `handleAddTask`: a task `task-<now>` named by the trimmed input, with the
    parsed duration and no dependencies, added to the selected template only
    when name and duration text are not blank and a template is selected.
    It is then scheduled at start time 0 and level 0.
  */
  method HandleAddTask(store: TemplateStore, newTaskName: string, newTaskDuration: string, now: string, duration: nat)
    requires store.Valid()
    modifies store
    ensures store.Valid()
    ensures Trim(newTaskName) != [] && Trim(newTaskDuration) != [] && old(store.selectedTemplate).Some? ==>
      && store.selectedTemplate.Some?
      && store.selectedTemplate.value.id == old(store.selectedTemplate).value.id
      && Lookup(store.selectedTemplate.value.tasks, "task-" + now) == Some(Task("task-" + now, Trim(newTaskName), duration, [], 0, 0))
    ensures Trim(newTaskName) != [] && Trim(newTaskDuration) != [] && old(store.selectedTemplate).Some? ==>
      var added := Edit.AddTask(Task("task-" + now, Trim(newTaskName), duration, [], 0, 0));
      && ApplyToMatching(old(store.templates), old(store.selectedTemplate).value.id, added) == Some(store.templates)
      && store.selectedTemplate == Apply(old(store.selectedTemplate).value, added)
    ensures Trim(newTaskName) == [] || Trim(newTaskDuration) == [] || old(store.selectedTemplate).None? ==>
      store.templates == old(store.templates) && store.selectedTemplate == old(store.selectedTemplate)
  {
    var name := Trim(newTaskName);
    if name != [] && Trim(newTaskDuration) != [] && store.selectedTemplate.Some? {
      var templateId := store.selectedTemplate.value.id;
      var newTask := Task("task-" + now, name, duration, [], 0, 0);
      ghost var before := store.selectedTemplate.value;
      AddTaskAccepted(before, newTask);
      var committed := store.AddTaskToTemplate(templateId, newTask);
    }
  }

  // ---------------------------------------------------------------------------
  // Moving a task between groups

  /**
    `after` is `before` with `taskId` dropped from the groups `0..done` and
    from no other group unless it was there; names, colours and every other
    member are kept.
  */
  ghost predicate Cleared(before: seq<Group>, after: seq<Group>, taskId: Id, done: nat)
  {
    && |after| == |before|
    && forall j | 0 <= j < |before| ::
      && after[j].id == before[j].id && after[j].name == before[j].name && after[j].color == before[j].color
      && (forall x :: x != taskId ==> multiset(after[j].taskIds)[x] == multiset(before[j].taskIds)[x])
      && (taskId in after[j].taskIds ==> j >= done && taskId in before[j].taskIds)
  }

  /**
    The groups after a drop of `taskId` on `groupId`: the task is once in
    every group with id `groupId` (unless that is "ungrouped") and in no
    other group; everything else is as it was.
  */
  ghost predicate Moved(before: seq<Group>, after: seq<Group>, taskId: Id, groupId: string)
  {
    && |after| == |before|
    && forall j | 0 <= j < |before| ::
      && after[j].id == before[j].id && after[j].name == before[j].name && after[j].color == before[j].color
      && (forall x :: x != taskId ==> multiset(after[j].taskIds)[x] == multiset(before[j].taskIds)[x])
      && multiset(after[j].taskIds)[taskId] == (if groupId != "ungrouped" && after[j].id == groupId then 1 else 0)
  }

  /** Each turn of the `forEach` keeps the groups cleared up to the next one. */
  lemma ClearedStep(before: seq<Group>, after: seq<Group>, taskId: Id, i: nat)
    requires Cleared(before, after, taskId, i) && i < |before|
    ensures taskId in before[i].taskIds ==> Cleared(before, Left(after, taskId, before[i].id), taskId, i + 1)
    ensures taskId !in before[i].taskIds ==> Cleared(before, after, taskId, i + 1)
  {
    var next := Left(after, taskId, before[i].id);
    forall j | 0 <= j < |before|
      ensures taskId in before[i].taskIds ==>
        && next[j].id == before[j].id && next[j].name == before[j].name && next[j].color == before[j].color
        && (forall x :: x != taskId ==> multiset(next[j].taskIds)[x] == multiset(before[j].taskIds)[x])
        && (taskId in next[j].taskIds ==> j >= i + 1 && taskId in before[j].taskIds)
    {
      LeftCounts(after, taskId, before[i].id, j);
    }
  }

  /** Once every group is cleared, adding the task to the target group (or to none) completes the move. */
  lemma ClearedThenJoined(before: seq<Group>, after: seq<Group>, taskId: Id, groupId: string)
    requires Cleared(before, after, taskId, |before|)
    ensures groupId != "ungrouped" ==> Moved(before, Joined(after, taskId, groupId), taskId, groupId)
    ensures groupId == "ungrouped" ==> Moved(before, after, taskId, groupId)
  {
    forall j | 0 <= j < |before|
      ensures multiset(after[j].taskIds)[taskId] == 0
    {
      assert taskId !in after[j].taskIds;
    }
    if groupId != "ungrouped" {
      forall j | 0 <= j < |before|
        ensures var g := Joined(after, taskId, groupId)[j];
          && g.id == before[j].id && g.name == before[j].name && g.color == before[j].color
          && (forall x :: x != taskId ==> multiset(g.taskIds)[x] == multiset(before[j].taskIds)[x])
          && multiset(g.taskIds)[taskId] == (if g.id == groupId then 1 else 0)
      {
        JoinedCounts(after, taskId, groupId, j);
      }
    }
  }

  /**
    `handleDrop`: with a template selected, the task is removed from every
    group of the selected template (as it was when the drop began) that
    lists it, one store action per group, then added to the target group
    unless the target is "ungrouped". Each action works on the latest state;
    tasks and every other template are left as they were.
  */
  method HandleDrop(store: TemplateStore, taskId: Id, groupId: string)
    requires store.Valid()
    modifies store
    ensures store.Valid()
    ensures old(store.selectedTemplate).None? ==>
      store.templates == old(store.templates) && store.selectedTemplate == old(store.selectedTemplate)
    ensures old(store.selectedTemplate).Some? ==>
      var before := old(store.selectedTemplate).value;
      && store.selectedTemplate.Some?
      && store.selectedTemplate.value.(groups := before.groups) == before
      && Moved(before.groups, store.selectedTemplate.value.groups, taskId, groupId)
    ensures |store.templates| == |old(store.templates)|
    ensures old(store.selectedTemplate).Some? ==>
      forall k | 0 <= k < |store.templates| && store.templates[k].id != old(store.selectedTemplate).value.id ::
        store.templates[k] == old(store.templates)[k]
  {
    if store.selectedTemplate.None? {
      return;
    }
    var selected := store.selectedTemplate.value;
    var groups := selected.groups;
    for i := 0 to |groups|
      invariant store.Valid()
      invariant store.selectedTemplate.Some? && store.selectedTemplate.value.(groups := groups) == selected
      invariant Cleared(groups, store.selectedTemplate.value.groups, taskId, i)
      invariant |store.templates| == |old(store.templates)|
      invariant forall k | 0 <= k < |store.templates| && store.templates[k].id != selected.id ::
        store.templates[k] == old(store.templates)[k]
    {
      if taskId in groups[i].taskIds {
        ClearedStep(groups, store.selectedTemplate.value.groups, taskId, i);
        var committed := store.RemoveTaskFromGroup(selected.id, taskId, groups[i].id);
      } else {
        ClearedStep(groups, store.selectedTemplate.value.groups, taskId, i);
      }
    }
    ClearedThenJoined(groups, store.selectedTemplate.value.groups, taskId, groupId);
    if groupId != "ungrouped" {
      var committed := store.AddTaskToGroup(selected.id, taskId, groupId);
    }
  }

  // ---------------------------------------------------------------------------
  // The task lists

  /** `groups.some(group => group.taskIds.includes(id))`. */
  predicate Grouped(groups: seq<Group>, id: Id)
  {
    exists j :: 0 <= j < |groups| && id in groups[j].taskIds
  }

  /** `tasks.filter(task => group.taskIds.includes(task.id))`: the tasks listed under a group. */
  function GroupTasks(tasks: seq<Task>, group: Group): (r: seq<Task>)
    ensures IsSubseq(r, tasks)
    ensures forall t :: t in r <==> t in tasks && t.id in group.taskIds
    ensures forall t: Task :: t.id in group.taskIds ==> multiset(r)[t] == multiset(tasks)[t]
  {
    Filter(tasks, (t: Task) => t.id in group.taskIds)
  }

  /** `tasks.filter(task => !groups.some(...))`: the tasks listed under "Ungrouped Tasks". */
  function UngroupedTasks(tasks: seq<Task>, groups: seq<Group>): (r: seq<Task>)
    ensures IsSubseq(r, tasks)
    ensures forall t :: t in r <==> t in tasks && !Grouped(groups, t.id)
    ensures forall t: Task :: !Grouped(groups, t.id) ==> multiset(r)[t] == multiset(tasks)[t]
  {
    Filter(tasks, (t: Task) => !Grouped(groups, t.id))
  }

  /** Every task of the template is listed under "Ungrouped Tasks" or under some group, never both. */
  lemma UngroupedOrInAGroup(tasks: seq<Task>, groups: seq<Group>, t: Task)
    requires t in tasks
    ensures t in UngroupedTasks(tasks, groups) <==> forall j | 0 <= j < |groups| :: t !in GroupTasks(tasks, groups[j])
  {
    if t !in UngroupedTasks(tasks, groups) {
      var j :| 0 <= j < |groups| && t.id in groups[j].taskIds;
      assert t in GroupTasks(tasks, groups[j]);
    }
  }

  /**
    After a drop on a group the task is listed under every group with that
    id and under no other group; after a drop on "ungrouped", under none.
  */
  lemma MovedListing(before: seq<Group>, after: seq<Group>, taskId: Id, groupId: string, tasks: seq<Task>, t: Task, j: nat)
    requires Moved(before, after, taskId, groupId) && t in tasks && t.id == taskId && j < |after|
    ensures t in GroupTasks(tasks, after[j]) <==> groupId != "ungrouped" && after[j].id == groupId
  {
    assert multiset(after[j].taskIds)[taskId] > 0 <==> taskId in after[j].taskIds;
  }

  /** After a drop on "ungrouped", and only then, the task is listed as ungrouped. */
  lemma MovedUngrouped(before: seq<Group>, after: seq<Group>, taskId: Id, groupId: string, tasks: seq<Task>, t: Task)
    requires Moved(before, after, taskId, groupId) && t in tasks && t.id == taskId
    requires groupId == "ungrouped" || exists j :: 0 <= j < |after| && after[j].id == groupId
    ensures t in UngroupedTasks(tasks, after) <==> groupId == "ungrouped"
  {
    if groupId == "ungrouped" {
      forall j | 0 <= j < |after|
        ensures taskId !in after[j].taskIds
      {
        assert multiset(after[j].taskIds)[taskId] == 0;
      }
    } else {
      var j :| 0 <= j < |after| && after[j].id == groupId;
      assert multiset(after[j].taskIds)[taskId] == 1;
    }
  }
}
