/**
  The schedule engine as the source runs it: a map of working copies keyed by
  id, two memoised recursions that write `startTime` and `level` into the
  copies, and the copies read back in key order. `CalculateStartTimes` is
  proved to return exactly `Schedule.Scheduled`.

  The proof goes through the recurrence the two recursions implement: a
  task's value is the largest contribution of its dependencies, 0 without
  any (`PlanAt`, `Planned`). The specification's values satisfy it
  (`ValuesArePlanned`), and the methods are proved against the recurrence
  alone.
*/
module Engine {
  import opened Wrappers
  import opened Sequences
  import opened Schedule

  /** `Math.max(...list)` for a non-empty list, 0 for an empty one. */
  function Latest(s: seq<nat>): (r: nat)
    ensures forall i :: 0 <= i < |s| ==> s[i] <= r
    ensures |s| > 0 ==> exists i :: 0 <= i < |s| && s[i] == r
    ensures |s| == 0 ==> r == 0
  {
    if |s| > 0 then MaxOf(s) else 0
  }

  /** `dependencies.map(depId => start[depId] + task[depId].duration)`. */
  function StartEnds(deps: seq<Id>, start: map<Id, nat>, source: map<Id, Task>): seq<nat>
    requires forall d | d in deps :: d in start && d in source
  {
    seq(|deps|, j requires 0 <= j < |deps| => start[deps[j]] + source[deps[j]].duration)
  }

  /** `ends` holds the first `|ends|` elements of `StartEnds(deps, start, source)`. */
  predicate StartPrefix(ends: seq<nat>, deps: seq<Id>, start: map<Id, nat>, source: map<Id, Task>)
    requires forall d | d in deps :: d in start && d in source
  {
    |ends| <= |deps| && forall j :: 0 <= j < |ends| ==> ends[j] == start[deps[j]] + source[deps[j]].duration
  }

  /** Appending the next dependency's end extends the prefix; the full prefix is the whole list. */
  lemma StartPrefixSnoc(ends: seq<nat>, deps: seq<Id>, start: map<Id, nat>, source: map<Id, Task>, x: nat)
    requires forall d | d in deps :: d in start && d in source
    requires StartPrefix(ends, deps, start, source)
    ensures |ends| < |deps| && x == start[deps[|ends|]] + source[deps[|ends|]].duration ==>
      StartPrefix(ends + [x], deps, start, source)
    ensures |ends| == |deps| ==> ends == StartEnds(deps, start, source)
  {
  }

  /** `dependencies.map(depId => level[depId] + 1)`. */
  function LevelEnds(deps: seq<Id>, level: map<Id, nat>): seq<nat>
    requires forall d | d in deps :: d in level
  {
    seq(|deps|, j requires 0 <= j < |deps| => level[deps[j]] + 1)
  }

  /** `levels` holds the first `|levels|` elements of `LevelEnds(deps, level)`. */
  predicate LevelPrefix(levels: seq<nat>, deps: seq<Id>, level: map<Id, nat>)
    requires forall d | d in deps :: d in level
  {
    |levels| <= |deps| && forall j :: 0 <= j < |levels| ==> levels[j] == level[deps[j]] + 1
  }

  /** Appending the next dependency's level extends the prefix; the full prefix is the whole list. */
  lemma LevelPrefixSnoc(levels: seq<nat>, deps: seq<Id>, level: map<Id, nat>, x: nat)
    requires forall d | d in deps :: d in level
    requires LevelPrefix(levels, deps, level)
    ensures |levels| < |deps| && x == level[deps[|levels|]] + 1 ==> LevelPrefix(levels + [x], deps, level)
    ensures |levels| == |deps| ==> levels == LevelEnds(deps, level)
  {
  }

  /**
    The plan at one id: the task is stored under its own id, its
    dependencies are all stored, its start time is the latest end of its
    dependencies and its level one more than its deepest dependency's.
  */
  predicate PlanAt(source: map<Id, Task>, start: map<Id, nat>, level: map<Id, nat>, k: Id)
    requires source.Keys == start.Keys == level.Keys && k in source
  {
    && source[k].id == k
    && (forall d | d in source[k].dependencies :: d in source)
    && start[k] == Latest(StartEnds(source[k].dependencies, start, source))
    && level[k] == Latest(LevelEnds(source[k].dependencies, level))
  }

  /** The ghost plan: the values of a closed dependency graph satisfying both recurrences. */
  predicate Planned(source: map<Id, Task>, start: map<Id, nat>, level: map<Id, nat>)
  {
    && source.Keys == start.Keys == level.Keys
    && forall k {:trigger PlanAt(source, start, level, k)} | k in source :: PlanAt(source, start, level, k)
  }

  /**
    The input tasks by id (`taskMap.get`), derived fields cleared: the
    drafts `{ ...task, startTime: 0, level: undefined }` the engine starts
    from, the last task with an id winning.
  */
  function SourceMap(tasks: seq<Task>): (source: map<Id, Task>)
    ensures source.Keys == IdSet(tasks)
    ensures forall k | k in source :: source[k] == Bare(Lookup(tasks, k).value)
  {
    map k | k in IdSet(tasks) :: Bare(Lookup(tasks, k).value)
  }

  /** The specification's value of every task under `m`. */
  function ValueMap(tasks: seq<Task>, m: Metric): (values: map<Id, nat>)
    requires Resolves(tasks, m)
    ensures values.Keys == IdSet(tasks)
    ensures forall k | k in values :: values[k] == ValueOf(tasks, m, k)
  {
    map k | k in IdSet(tasks) :: ValueOf(tasks, m, k)
  }

  /** The value of a task is the latest of its dependencies' contributions. */
  lemma {:induction false} ValueIsLatest(tasks: seq<Task>, m: Metric, k: Id, ends: seq<nat>)
    requires Resolves(tasks, m) && k in IdSet(tasks)
    requires |ends| == |DepsOf(tasks, k)|
    requires forall j :: 0 <= j < |ends| ==>
      DepsOf(tasks, k)[j] in IdSet(tasks) &&
      ends[j] == ValueOf(tasks, m, DepsOf(tasks, k)[j]) + Weight(m, Lookup(tasks, DepsOf(tasks, k)[j]).value)
    ensures ValueOf(tasks, m, k) == Latest(ends)
  {
    var deps := DepsOf(tasks, k);
    ValueIsMaxFinish(tasks, m, k);
    if deps != [] {
      var d :| d in deps && d in IdSet(tasks) &&
        ValueOf(tasks, m, d) + Weight(m, Lookup(tasks, d).value) == ValueOf(tasks, m, k);
      var j :| 0 <= j < |deps| && deps[j] == d;
      var i :| 0 <= i < |ends| && ends[i] == Latest(ends);
      assert ends[j] <= Latest(ends);
      assert deps[i] in deps;
    }
  }

  /** The specification's start time of `k` is the latest end of its dependencies. */
  lemma StartIsLatest(tasks: seq<Task>, k: Id)
    requires Closed(tasks) && Resolves(tasks, StartTime) && k in IdSet(tasks)
    ensures forall d | d in DepsOf(tasks, k) :: d in SourceMap(tasks)
    ensures ValueMap(tasks, StartTime)[k]
      == Latest(StartEnds(DepsOf(tasks, k), ValueMap(tasks, StartTime), SourceMap(tasks)))
  {
    var deps := DepsOf(tasks, k);
    var ends := StartEnds(deps, ValueMap(tasks, StartTime), SourceMap(tasks));
    forall j | 0 <= j < |ends|
      ensures ends[j] == ValueOf(tasks, StartTime, deps[j]) + Weight(StartTime, Lookup(tasks, deps[j]).value)
    {
      assert SourceMap(tasks)[deps[j]].duration == Lookup(tasks, deps[j]).value.duration;
    }
    ValueIsLatest(tasks, StartTime, k, ends);
  }

  /** The specification's level of `k` is one more than its deepest dependency's. */
  lemma LevelIsLatest(tasks: seq<Task>, k: Id)
    requires Closed(tasks) && Resolves(tasks, Level) && k in IdSet(tasks)
    ensures forall d | d in DepsOf(tasks, k) :: d in SourceMap(tasks)
    ensures ValueMap(tasks, Level)[k] == Latest(LevelEnds(DepsOf(tasks, k), ValueMap(tasks, Level)))
  {
    ValueIsLatest(tasks, Level, k, LevelEnds(DepsOf(tasks, k), ValueMap(tasks, Level)));
  }

  /** The plan holds at every id of a list the engine schedules. */
  lemma PlanAtValues(tasks: seq<Task>, k: Id)
    requires Closed(tasks) && Resolves(tasks, StartTime) && Resolves(tasks, Level)
    requires k in IdSet(tasks)
    ensures PlanAt(SourceMap(tasks), ValueMap(tasks, StartTime), ValueMap(tasks, Level), k)
  {
    assert SourceMap(tasks)[k].dependencies == DepsOf(tasks, k);
    StartIsLatest(tasks, k);
    LevelIsLatest(tasks, k);
  }

  /** The specification's start times and levels satisfy the engine's recurrences. */
  lemma ValuesArePlanned(tasks: seq<Task>)
    requires Schedulable(tasks)
    ensures Planned(SourceMap(tasks), ValueMap(tasks, StartTime), ValueMap(tasks, Level))
  {
    SchedulableIff(tasks);
    forall k | k in IdSet(tasks)
      ensures PlanAt(SourceMap(tasks), ValueMap(tasks, StartTime), ValueMap(tasks, Level), k)
    {
      PlanAtValues(tasks, k);
    }
  }

  /**
    The working copies once the ids in `started` have their start time and
    those in `leveled` their level written; an unwritten field holds 0.
  */
  function Snapshot(source: map<Id, Task>, start: map<Id, nat>, level: map<Id, nat>,
                    started: set<Id>, leveled: set<Id>): (entries: map<Id, Task>)
    requires source.Keys == start.Keys == level.Keys
    ensures entries.Keys == source.Keys
  {
    map k | k in source :: source[k].(startTime := if k in started then start[k] else 0,
                                      level := if k in leveled then level[k] else 0)
  }

  /** Writing the start time of `id` moves it into `started`. */
  lemma WriteStart(source: map<Id, Task>, start: map<Id, nat>, level: map<Id, nat>,
                   started: set<Id>, leveled: set<Id>, id: Id)
    requires source.Keys == start.Keys == level.Keys && id in source
    ensures var before := Snapshot(source, start, level, started, leveled);
      before[id := before[id].(startTime := start[id])] == Snapshot(source, start, level, started + {id}, leveled)
  {
  }

  /** Writing the level of `id` moves it into `leveled`. */
  lemma WriteLevel(source: map<Id, Task>, start: map<Id, nat>, level: map<Id, nat>,
                   started: set<Id>, leveled: set<Id>, id: Id)
    requires source.Keys == start.Keys == level.Keys && id in source
    ensures var before := Snapshot(source, start, level, started, leveled);
      before[id := before[id].(level := level[id])] == Snapshot(source, start, level, started, leveled + {id})
  {
  }

  /** Adding a task to the list appends its id to the keys unless the id is already there. */
  lemma KeysSnoc(tasks: seq<Task>, t: Task)
    ensures IdSet(tasks + [t]) == IdSet(tasks) + {t.id}
    ensures Keys(tasks + [t]) == if t.id in IdSet(tasks) then Keys(tasks) else Keys(tasks) + [t.id]
  {
    assert Init(tasks + [t]) == tasks && Last(tasks + [t]) == t;
  }

  /** Adding a task to the list overwrites the draft under its id. */
  lemma SourceMapSnoc(tasks: seq<Task>, t: Task)
    ensures SourceMap(tasks + [t]) == SourceMap(tasks)[t.id := Bare(t)]
  {
    var s := tasks + [t];
    assert Init(s) == tasks && Last(s) == t;
    assert IdSet(s) == IdSet(tasks) + {t.id};
    var after := SourceMap(tasks)[t.id := Bare(t)];
    assert SourceMap(s).Keys == after.Keys;
    forall k | k in IdSet(s)
      ensures SourceMap(s)[k] == after[k]
    {
      if k == t.id {
        assert Lookup(s, k) == Some(t);
      } else {
        assert Lookup(s, k) == Lookup(tasks, k);
      }
    }
  }

  /** Before any write, the working copies are the drafts. */
  lemma DraftsAreSnapshot(tasks: seq<Task>, start: map<Id, nat>, level: map<Id, nat>)
    requires start.Keys == level.Keys == IdSet(tasks)
    ensures SourceMap(tasks) == Snapshot(SourceMap(tasks), start, level, {}, {})
  {
  }

  /**
    `new Map(tasks.map(task => [task.id, draft]))`: one draft per id, the
    last task with that id winning, keys in order of first appearance.
  */
  method BuildSourceMap(tasks: seq<Task>) returns (ks: seq<Id>, es: map<Id, Task>)
    ensures ks == Keys(tasks) && es == SourceMap(tasks)
  {
    ks := [];
    es := map[];
    for i := 0 to |tasks|
      invariant ks == Keys(tasks[..i])
      invariant es == SourceMap(tasks[..i])
    {
      PrefixSnoc(tasks, i);
      KeysSnoc(tasks[..i], tasks[i]);
      SourceMapSnoc(tasks[..i], tasks[i]);
      if tasks[i].id !in es {
        ks := ks + [tasks[i].id];
      }
      es := es[tasks[i].id := Bare(tasks[i])];
    }
    assert tasks[..|tasks|] == tasks;
  }

  /**
    `taskMap`: the working copies (`entries`) and their key order (`order`).
    `started` holds the ids whose `startTime` has been written and `leveled`
    those whose `level` is no longer `undefined`; an id outside `leveled`
    holds a placeholder 0 in `level`. The ghost constants `source`, `start`
    and `level` are the input tasks and the values the recursions must find.
  */
  class TaskMap {
    const order: seq<Id>
    ghost const source: map<Id, Task>
    ghost const start: map<Id, nat>
    ghost const level: map<Id, nat>
    var entries: map<Id, Task>
    ghost var started: set<Id>
    var leveled: set<Id>

    /**
      Every working copy is its input task with the derived fields possibly
      written; a written field holds the task's value and an unwritten one 0.
    */
    ghost predicate Valid()
      reads this
    {
      && Planned(source, start, level)
      && started <= source.Keys && leveled <= source.Keys
      && entries == Snapshot(source, start, level, started, leveled)
    }

    /**
      `new Map(tasks.map(task => [task.id, draft]))`: later tasks overwrite
      earlier ones with the same id. The ghost values exist when the engine
      terminates on `tasks`.
    */
    constructor (tasks: seq<Task>, ghost start0: map<Id, nat>, ghost level0: map<Id, nat>)
      requires Planned(SourceMap(tasks), start0, level0)
      ensures Valid() && started == {} && leveled == {}
      ensures order == Keys(tasks) && source == SourceMap(tasks) && start == start0 && level == level0
      ensures forall i | 0 <= i < |order| :: order[i] in source
      ensures entries == SourceMap(tasks)
    {
      var ks, es := BuildSourceMap(tasks);
      DraftsAreSnapshot(tasks, start0, level0);
      order := ks;
      source := SourceMap(tasks);
      start := start0;
      level := level0;
      entries := es;
      started := {};
      leveled := {};
    }

    /**
      `calculateTaskStartTime`: a non-zero `startTime` is returned as is;
      otherwise the latest end of the dependencies (0 without any) is written
      into the copy and returned.
    */
    method CalcStart(id: Id) returns (v: nat)
      requires Valid() && id in source
      modifies this
      ensures Valid() && leveled == old(leveled) && old(started) <= started && id in started
      ensures v == start[id]
      decreases level[id], 1
    {
      if entries[id].startTime > 0 {
        return entries[id].startTime;
      }
      var ends := StartEndsOf(id);
      assert PlanAt(source, start, level, id);
      var startTime := if |ends| > 0 then MaxOf(ends) else 0;
      WriteStart(source, start, level, started, leveled, id);
      entries := entries[id := entries[id].(startTime := startTime)];
      started := started + {id};
      return startTime;
    }

    /**
      `task.dependencies.map(depId => calculateTaskStartTime(depId) + taskMap.get(depId).duration)`:
      the end of every dependency, each computed (and written) on the way.
    */
    method StartEndsOf(id: Id) returns (ends: seq<nat>)
      requires Valid() && id in source
      modifies this
      ensures Valid() && leveled == old(leveled) && old(started) <= started
      ensures PlanAt(source, start, level, id)
      ensures ends == StartEnds(source[id].dependencies, start, source)
      decreases level[id], 0
    {
      var deps := entries[id].dependencies;
      assert deps == source[id].dependencies by {
        assert Bare(entries[id]) == Bare(source[id]);
      }
      assert PlanAt(source, start, level, id);
      ends := [];
      for i := 0 to |deps|
        invariant Valid() && leveled == old(leveled) && old(started) <= started
        invariant |ends| == i && StartPrefix(ends, deps, start, source)
      {
        assert level[deps[i]] < level[id] by {
          assert LevelEnds(deps, level)[i] == level[deps[i]] + 1;
        }
        var depTask := entries[deps[i]];
        assert depTask.duration == source[deps[i]].duration;
        var depStart := CalcStart(deps[i]);
        var end: nat := depStart + depTask.duration;
        StartPrefixSnoc(ends, deps, start, source, end);
        ends := ends + [end];
      }
      StartPrefixSnoc(ends, deps, start, source, 0);
    }

    /**
      `calculateTaskLevel`: a level that is no longer `undefined` is returned
      as is; otherwise one more than the deepest dependency's level (0
      without any) is written into the copy and returned.
    */
    method CalcLevel(id: Id) returns (v: nat)
      requires Valid() && id in source
      modifies this
      ensures Valid() && started == old(started) && old(leveled) <= leveled && id in leveled
      ensures v == level[id]
      decreases level[id], 1
    {
      if id in leveled {
        return entries[id].level;
      }
      var levels := LevelEndsOf(id);
      assert PlanAt(source, start, level, id);
      var taskLevel := if |levels| > 0 then MaxOf(levels) else 0;
      WriteLevel(source, start, level, started, leveled, id);
      entries := entries[id := entries[id].(level := taskLevel)];
      leveled := leveled + {id};
      return taskLevel;
    }

    /**
      `task.dependencies.map(depId => calculateTaskLevel(depId) + 1)`: one
      more than every dependency's level, each computed (and written) on the way.
    */
    method LevelEndsOf(id: Id) returns (levels: seq<nat>)
      requires Valid() && id in source
      modifies this
      ensures Valid() && started == old(started) && old(leveled) <= leveled
      ensures PlanAt(source, start, level, id)
      ensures levels == LevelEnds(source[id].dependencies, level)
      decreases level[id], 0
    {
      var deps := entries[id].dependencies;
      assert deps == source[id].dependencies by {
        assert Bare(entries[id]) == Bare(source[id]);
      }
      assert PlanAt(source, start, level, id);
      levels := [];
      for i := 0 to |deps|
        invariant Valid() && started == old(started) && old(leveled) <= leveled
        invariant |levels| == i && LevelPrefix(levels, deps, level)
      {
        assert level[deps[i]] < level[id] by {
          assert LevelEnds(deps, level)[i] == level[deps[i]] + 1;
        }
        var depLevel := CalcLevel(deps[i]);
        var next: nat := depLevel + 1;
        LevelPrefixSnoc(levels, deps, level, next);
        levels := levels + [next];
      }
      LevelPrefixSnoc(levels, deps, level, 0);
    }

    /**
      `tasks.forEach(task => calculateTaskStartTime(task.id))`, then the same
      with `calculateTaskLevel`: every task listed gets both fields written.
    */
    method Run(tasks: seq<Task>)
      requires Valid() && forall j :: 0 <= j < |tasks| ==> tasks[j].id in source
      modifies this
      ensures Valid()
      ensures forall j :: 0 <= j < |tasks| ==> tasks[j].id in started && tasks[j].id in leveled
    {
      for i := 0 to |tasks|
        invariant Valid() && leveled == old(leveled)
        invariant forall j :: 0 <= j < i ==> tasks[j].id in started
      {
        var _ := CalcStart(tasks[i].id);
      }
      for i := 0 to |tasks|
        invariant Valid()
        invariant forall j :: 0 <= j < |tasks| ==> tasks[j].id in started
        invariant forall j :: 0 <= j < i ==> tasks[j].id in leveled
      {
        var _ := CalcLevel(tasks[i].id);
      }
    }

    /** `Array.from(taskMap.values())`: the working copies in key order. */
    method Values() returns (vs: seq<Task>)
      requires Valid() && forall i :: 0 <= i < |order| ==> order[i] in entries
      ensures |vs| == |order| && forall i :: 0 <= i < |order| ==> vs[i] == entries[order[i]]
    {
      vs := [];
      for i := 0 to |order|
        invariant |vs| == i && forall j :: 0 <= j < i ==> vs[j] == entries[order[j]]
      {
        vs := vs + [entries[order[i]]];
      }
    }
  }

  /** Every task's id is one of the list's ids. */
  lemma IdsListed(tasks: seq<Task>)
    ensures forall j | 0 <= j < |tasks| :: tasks[j].id in IdSet(tasks)
  {
    IdSetMembers(tasks);
  }

  /** Every id of the list occurs among its positions: the passes over `tasks` visit all of them. */
  lemma VisitedAll(tasks: seq<Task>, visited: set<Id>)
    requires forall j :: 0 <= j < |tasks| ==> tasks[j].id in visited
    ensures IdSet(tasks) <= visited
  {
    IdSetMembers(tasks);
  }

  /**
    The body of `calculateStartTimes` on a list whose recursions terminate
    with the values `start` and `level`: build the map, run both passes over
    the list, read the copies back. Every copy comes back with both fields
    written.
  */
  method RunEngine(tasks: seq<Task>, ghost start: map<Id, nat>, ghost level: map<Id, nat>)
    returns (out: seq<Task>)
    requires Planned(SourceMap(tasks), start, level)
    ensures |out| == |Keys(tasks)|
    ensures forall i :: 0 <= i < |out| ==>
      out[i] == Snapshot(SourceMap(tasks), start, level, IdSet(tasks), IdSet(tasks))[Keys(tasks)[i]]
  {
    var taskMap := new TaskMap(tasks, start, level);
    IdsListed(tasks);
    taskMap.Run(tasks);
    VisitedAll(tasks, taskMap.started);
    VisitedAll(tasks, taskMap.leveled);
    out := taskMap.Values();
  }

  /** Read back in key order once every field is written, the working copies are the specification's schedule. */
  lemma FinishedIsScheduled(tasks: seq<Task>, out: seq<Task>)
    requires Schedulable(tasks)
    requires |out| == |Keys(tasks)|
    requires forall i :: 0 <= i < |out| ==>
      out[i] == Snapshot(SourceMap(tasks), ValueMap(tasks, StartTime), ValueMap(tasks, Level), IdSet(tasks), IdSet(tasks))[Keys(tasks)[i]]
    ensures out == Scheduled(tasks)
  {
    forall i | 0 <= i < |out|
      ensures out[i] == Scheduled(tasks)[i]
    {
      var k := Keys(tasks)[i];
      assert Bare(out[i]) == Bare(Lookup(tasks, k).value);
    }
  }

  /**
    `calculateStartTimes(tasks)`. `None` stands for the exception the source
    throws: a `TypeError` when a dependency names a missing task and a
    `RangeError` (stack overflow) on a dependency cycle. Otherwise the result
    is the specification `Scheduled(tasks)`.
  */
  method CalculateStartTimes(tasks: seq<Task>) returns (r: Option<seq<Task>>)
    ensures r.Some? <==> Schedulable(tasks)
    ensures r.Some? ==> r.value == Scheduled(tasks)
  {
    if !Schedulable(tasks) {
      return None;
    }
    ValuesArePlanned(tasks);
    var out := RunEngine(tasks, ValueMap(tasks, StartTime), ValueMap(tasks, Level));
    FinishedIsScheduled(tasks, out);
    return Some(out);
  }
}
