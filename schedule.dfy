/**
  The schedule engine's specification (`calculateStartTimes` in
  src/hooks/useTemplateStore.js).

  A task's start time is the length of the longest dependency chain leading to
  it, weighted by the durations of the tasks on the chain; its level is the
  same length counted in edges. Both are defined here by one recursion over the
  dependency graph (`Longest`), generic in the weight (`Metric`). The recursion
  carries fuel: a chain that visits more tasks than there are ids must repeat a
  task, so the fuel `|IdSet(tasks)|` is enough exactly when the graph is closed
  and acyclic (`SchedulableIff`), which is also exactly when the source's
  recursion terminates without dereferencing a missing task.

  The engine keys its working copies by id in a JavaScript `Map`: the key order
  is the order in which ids first occur (`Keys`) and the value kept for an id is
  the last task with that id (`Lookup`).
*/
module Schedule {
  import opened Wrappers
  import opened Sequences

  type Id = string

  /** A task; `startTime` and `level` are the derived fields the engine writes. */
  datatype Task = Task(
    id: Id,
    name: string,
    duration: nat,
    dependencies: seq<Id>,
    startTime: nat,
    level: nat)

  /** The two derived fields; each is a longest path with its own edge weight. */
  datatype Metric = StartTime | Level

  /** What a dependency adds on top of its own value: its duration (start times) or 1 (levels). */
  function Weight(m: Metric, t: Task): nat
  {
    match m
    case StartTime => t.duration
    case Level => 1
  }

  /** The derived field of `t` that `m` names. */
  function Derived(t: Task, m: Metric): nat
  {
    match m
    case StartTime => t.startTime
    case Level => t.level
  }

  /** The task with its derived fields cleared: everything the engine copies. */
  function Bare(t: Task): Task
  {
    t.(startTime := 0, level := 0)
  }

  predicate UniqueIds(tasks: seq<Task>)
  {
    forall i, j :: 0 <= i < j < |tasks| ==> tasks[i].id != tasks[j].id
  }

  function IdSet(tasks: seq<Task>): set<Id>
  {
    if tasks == [] then {} else IdSet(Init(tasks)) + {Last(tasks).id}
  }

  /** The key order of `new Map(tasks.map(t => [t.id, ...]))`: ids by first occurrence. */
  function Keys(tasks: seq<Task>): (ks: seq<Id>)
    ensures forall id :: id in ks <==> id in IdSet(tasks)
    ensures forall i, j :: 0 <= i < j < |ks| ==> ks[i] != ks[j]
  {
    if tasks == [] then []
    else
      var ks := Keys(Init(tasks));
      if Last(tasks).id in ks then ks else ks + [Last(tasks).id]
  }

  /** `taskMap.get(id)`: the last task with that id, or `undefined`. */
  function Lookup(tasks: seq<Task>, id: Id): (r: Option<Task>)
    ensures r.Some? <==> id in IdSet(tasks)
    ensures r.Some? ==> r.value.id == id && r.value in tasks
  {
    if tasks == [] then None
    else if Last(tasks).id == id then Some(Last(tasks))
    else Lookup(Init(tasks), id)
  }

  /** The dependency list the engine reads for `id` (`task.dependencies || []`). */
  function DepsOf(tasks: seq<Task>, id: Id): seq<Id>
  {
    match Lookup(tasks, id)
    case Some(t) => t.dependencies
    case None => []
  }

  /** Every dependency id names a task of the list. */
  predicate Closed(tasks: seq<Task>)
  {
    forall id | id in IdSet(tasks) :: forall d | d in DepsOf(tasks, id) :: d in IdSet(tasks)
  }

  /** `b` is a dependency of the task `a`. */
  predicate Step(tasks: seq<Task>, a: Id, b: Id)
  {
    a in IdSet(tasks) && b in DepsOf(tasks, a)
  }

  /** A chain of ids, each a dependency of the one before it. */
  ghost predicate IsPath(tasks: seq<Task>, c: seq<Id>)
  {
    |c| >= 1 && forall i :: 0 <= i < |c| - 1 ==> Step(tasks, c[i], c[i + 1])
  }

  /** No chain of dependencies leads from a task back to itself (a self-dependency included). */
  ghost predicate Acyclic(tasks: seq<Task>)
  {
    forall c :: IsPath(tasks, c) && |c| >= 2 ==> c[0] != c[|c| - 1]
  }

  /** Some chain of dependencies leads from `a` to `b` (`a` itself when they are equal). */
  ghost predicate Reaches(tasks: seq<Task>, a: Id, b: Id)
  {
    exists c :: IsPath(tasks, c) && c[0] == a && c[|c| - 1] == b
  }

  /**
    The derived value of task `id`: 0 without dependencies, otherwise the
    largest `Finish` of its dependencies. `None` when a chain from `id` reaches
    a missing id or runs longer than `fuel` tasks.
  */
  function Longest(tasks: seq<Task>, m: Metric, id: Id, fuel: nat): Option<nat>
    decreases fuel, 0, 0
  {
    match Lookup(tasks, id)
    case None => None
    case Some(t) => if fuel == 0 then None else Farthest(tasks, m, t.dependencies, fuel - 1)
  }

  /** `dep.startTime + dep.duration` (start times), `depLevel + 1` (levels). */
  function Finish(tasks: seq<Task>, m: Metric, id: Id, fuel: nat): Option<nat>
    decreases fuel, 1, 0
  {
    match Lookup(tasks, id)
    case None => None
    case Some(t) =>
      match Longest(tasks, m, id, fuel)
      case None => None
      case Some(v) => Some(v + Weight(m, t))
  }

  /** The largest `Finish` over `deps`, 0 for no dependencies. */
  function Farthest(tasks: seq<Task>, m: Metric, deps: seq<Id>, fuel: nat): Option<nat>
    decreases fuel, 2, |deps|
  {
    if deps == [] then Some(0)
    else
      match (Finish(tasks, m, deps[0], fuel), Farthest(tasks, m, deps[1..], fuel))
      case (Some(a), Some(b)) => Some(if a < b then b else a)
      case _ => None
  }

  /** Enough fuel for any chain that does not repeat a task. */
  function Fuel(tasks: seq<Task>): nat
  {
    |IdSet(tasks)|
  }

  /** Every task's value under `m` is defined. */
  predicate Resolves(tasks: seq<Task>, m: Metric)
  {
    forall id {:trigger Longest(tasks, m, id, Fuel(tasks))} | id in IdSet(tasks) :: Longest(tasks, m, id, Fuel(tasks)).Some?
  }

  /** The engine runs to completion on `tasks` (no missing id, no cycle). */
  predicate Schedulable(tasks: seq<Task>)
  {
    Resolves(tasks, StartTime) && Resolves(tasks, Level)
  }

  function ValueOf(tasks: seq<Task>, m: Metric, id: Id): nat
    requires Resolves(tasks, m) && id in IdSet(tasks)
  {
    Longest(tasks, m, id, Fuel(tasks)).value
  }

  /** The working copy of `id` once both derived fields are written. */
  function Annotated(tasks: seq<Task>, id: Id): Task
    requires Schedulable(tasks) && id in IdSet(tasks)
  {
    Lookup(tasks, id).value.(startTime := ValueOf(tasks, StartTime, id), level := ValueOf(tasks, Level, id))
  }

  /** What `calculateStartTimes(tasks)` returns: `Array.from(taskMap.values())`. */
  function Scheduled(tasks: seq<Task>): (out: seq<Task>)
    requires Schedulable(tasks)
  {
    var ks := Keys(tasks);
    seq(|ks|, i requires 0 <= i < |ks| => Annotated(tasks, ks[i]))
  }

  // ---------------------------------------------------------------------------
  // Ids and lookups

  lemma {:induction false} IdSetMembers(tasks: seq<Task>)
    ensures forall id :: id in IdSet(tasks) <==> exists i :: 0 <= i < |tasks| && tasks[i].id == id
  {
    if tasks != [] {
      IdSetMembers(Init(tasks));
      forall id | id in IdSet(tasks)
        ensures exists i :: 0 <= i < |tasks| && tasks[i].id == id
      {
        if id != Last(tasks).id {
          assert id in IdSet(Init(tasks));
          var i :| 0 <= i < |Init(tasks)| && Init(tasks)[i].id == id;
          assert tasks[i].id == id;
        }
      }
      forall i | 0 <= i < |tasks|
        ensures tasks[i].id in IdSet(tasks)
      {
        if i < |tasks| - 1 {
          assert tasks[i] == Init(tasks)[i];
        }
      }
    }
  }

  /** With unique ids, the lookup of a task's id finds that task. */
  lemma {:induction false} LookupUnique(tasks: seq<Task>, i: nat)
    requires UniqueIds(tasks) && i < |tasks|
    ensures Lookup(tasks, tasks[i].id) == Some(tasks[i])
  {
    if i < |tasks| - 1 {
      assert tasks[i] == Init(tasks)[i];
      LookupUnique(Init(tasks), i);
    }
  }

  /**
    `Map.get` after building the map from the list: the value under an id is
    the last task of the list with that id, as later entries overwrite
    earlier ones.
  */
  lemma {:induction false} LookupIsLast(tasks: seq<Task>, id: Id) returns (i: nat)
    requires id in IdSet(tasks)
    ensures i < |tasks| && tasks[i].id == id && Lookup(tasks, id) == Some(tasks[i])
    ensures forall j :: i < j < |tasks| ==> tasks[j].id != id
  {
    if Last(tasks).id == id {
      i := |tasks| - 1;
    } else {
      i := LookupIsLast(Init(tasks), id);
      assert tasks[i] == Init(tasks)[i];
      forall j | i < j < |tasks|
        ensures tasks[j].id != id
      {
        if j < |tasks| - 1 {
          assert tasks[j] == Init(tasks)[j];
        }
      }
    }
  }

  /**
    The map's keys come in order of first occurrence: wherever the list
    holds the key at position `later`, it holds the key at an earlier
    position `before` somewhere in front of it.
  */
  lemma {:induction false} KeysInFirstOccurrenceOrder(tasks: seq<Task>, before: nat, later: nat, p: nat)
    requires before < later < |Keys(tasks)| && p < |tasks| && tasks[p].id == Keys(tasks)[later]
    ensures exists q :: 0 <= q < p && tasks[q].id == Keys(tasks)[before]
  {
    var front := Init(tasks);
    var ks := Keys(front);
    IdSetMembers(front);
    if p == |tasks| - 1 {
      assert ks[before] in IdSet(front);
      var q :| 0 <= q < |front| && front[q].id == ks[before];
      assert tasks[q] == front[q];
    } else {
      assert tasks[p] == front[p];
      assert tasks[p].id in IdSet(front);
      KeysInFirstOccurrenceOrder(front, before, later, p);
      var q :| 0 <= q < p && front[q].id == ks[before];
      assert tasks[q] == front[q];
    }
  }

  /** With unique ids, the key order is the list order. */
  lemma {:induction false} KeysOfUnique(tasks: seq<Task>)
    requires UniqueIds(tasks)
    ensures |Keys(tasks)| == |tasks|
    ensures forall i :: 0 <= i < |tasks| ==> Keys(tasks)[i] == tasks[i].id
  {
    if tasks != [] {
      KeysOfUnique(Init(tasks));
      IdSetMembers(Init(tasks));
      assert Last(tasks).id !in IdSet(Init(tasks));
    }
  }

  // ---------------------------------------------------------------------------
  // Fuel

  lemma {:induction false} LongestFuelMono(tasks: seq<Task>, m: Metric, id: Id, f: nat, g: nat)
    requires f <= g && Longest(tasks, m, id, f).Some?
    ensures Longest(tasks, m, id, g) == Longest(tasks, m, id, f)
    decreases f, 0, 0
  {
    var t := Lookup(tasks, id).value;
    FarthestFuelMono(tasks, m, t.dependencies, f - 1, g - 1);
  }

  lemma {:induction false} FinishFuelMono(tasks: seq<Task>, m: Metric, id: Id, f: nat, g: nat)
    requires f <= g && Finish(tasks, m, id, f).Some?
    ensures Finish(tasks, m, id, g) == Finish(tasks, m, id, f)
    decreases f, 1, 0
  {
    LongestFuelMono(tasks, m, id, f, g);
  }

  lemma {:induction false} FarthestFuelMono(tasks: seq<Task>, m: Metric, deps: seq<Id>, f: nat, g: nat)
    requires f <= g && Farthest(tasks, m, deps, f).Some?
    ensures Farthest(tasks, m, deps, g) == Farthest(tasks, m, deps, f)
    decreases f, 2, |deps|
  {
    if deps != [] {
      FinishFuelMono(tasks, m, deps[0], f, g);
      FarthestFuelMono(tasks, m, deps[1..], f, g);
    }
  }

  /** A defined value does not depend on the fuel that produced it. */
  lemma FuelIrrelevant(tasks: seq<Task>, m: Metric, id: Id, f: nat, g: nat)
    requires Longest(tasks, m, id, f).Some? && Longest(tasks, m, id, g).Some?
    ensures Longest(tasks, m, id, f) == Longest(tasks, m, id, g)
  {
    if f <= g {
      LongestFuelMono(tasks, m, id, f, g);
    } else {
      LongestFuelMono(tasks, m, id, g, f);
    }
  }

  // ---------------------------------------------------------------------------
  // Farthest is the maximum of the dependencies' finishes

  lemma {:induction false} FarthestBounds(tasks: seq<Task>, m: Metric, deps: seq<Id>, f: nat)
    requires Farthest(tasks, m, deps, f).Some?
    ensures forall j :: 0 <= j < |deps| ==>
      Finish(tasks, m, deps[j], f).Some? && Finish(tasks, m, deps[j], f).value <= Farthest(tasks, m, deps, f).value
    ensures forall d :: d in deps ==> Longest(tasks, m, d, f).Some? && d in IdSet(tasks)
    ensures deps == [] ==> Farthest(tasks, m, deps, f).value == 0
    ensures deps != [] ==> exists j :: 0 <= j < |deps| && Finish(tasks, m, deps[j], f).value == Farthest(tasks, m, deps, f).value
    decreases |deps|
  {
    if deps != [] {
      FarthestBounds(tasks, m, deps[1..], f);
      forall j | 1 <= j < |deps|
        ensures deps[j] == deps[1..][j - 1]
      {
      }
      forall d | d in deps
        ensures Longest(tasks, m, d, f).Some? && d in IdSet(tasks)
      {
        if d != deps[0] {
          assert d in deps[1..];
        }
      }
      if Finish(tasks, m, deps[0], f).value < Farthest(tasks, m, deps[1..], f).value {
        var j :| 0 <= j < |deps[1..]| && Finish(tasks, m, deps[1..][j], f).value == Farthest(tasks, m, deps[1..], f).value;
        assert Finish(tasks, m, deps[j + 1], f).value == Farthest(tasks, m, deps, f).value;
      }
    }
  }

  /** One dependency without a value leaves the whole maximum undefined. */
  lemma {:induction false} FarthestNeedsAll(tasks: seq<Task>, m: Metric, deps: seq<Id>, d: Id, f: nat)
    requires d in deps && Longest(tasks, m, d, f).None?
    ensures Farthest(tasks, m, deps, f).None?
    decreases |deps|
  {
    if deps[0] != d {
      assert d in deps[1..];
      FarthestNeedsAll(tasks, m, deps[1..], d, f);
    }
  }

  /** An undefined maximum has a dependency without a value. */
  lemma {:induction false} FarthestFailure(tasks: seq<Task>, m: Metric, deps: seq<Id>, f: nat) returns (j: nat)
    requires Farthest(tasks, m, deps, f).None?
    ensures j < |deps| && Longest(tasks, m, deps[j], f).None?
    decreases |deps|
  {
    if Finish(tasks, m, deps[0], f).None? {
      j := 0;
    } else {
      var k := FarthestFailure(tasks, m, deps[1..], f);
      j := k + 1;
      assert deps[j] == deps[1..][k];
    }
  }

  /** `Farthest` is `Math.max` of the list of finishes, or 0 for an empty list. */
  lemma {:induction false} FarthestIsMaxOf(tasks: seq<Task>, m: Metric, deps: seq<Id>, f: nat, ends: seq<nat>)
    requires Farthest(tasks, m, deps, f).Some?
    requires |ends| == |deps|
    requires forall j :: 0 <= j < |deps| ==> Finish(tasks, m, deps[j], f) == Some(ends[j])
    ensures Farthest(tasks, m, deps, f).value == if |ends| > 0 then MaxOf(ends) else 0
    decreases |deps|
  {
    if |deps| > 1 {
      forall j | 0 <= j < |deps| - 1
        ensures Finish(tasks, m, deps[1..][j], f) == Some(ends[1..][j])
      {
        assert deps[1..][j] == deps[j + 1];
      }
      FarthestIsMaxOf(tasks, m, deps[1..], f, ends[1..]);
    }
  }

  // ---------------------------------------------------------------------------
  // Definedness: Resolves <==> Closed && Acyclic

  lemma {:induction false} PathSlice(tasks: seq<Task>, c: seq<Id>, i: nat, j: nat)
    requires IsPath(tasks, c) && i <= j < |c|
    ensures IsPath(tasks, c[i..j + 1])
  {
    var s := c[i..j + 1];
    forall k | 0 <= k < |s| - 1
      ensures Step(tasks, s[k], s[k + 1])
    {
      assert s[k] == c[i + k] && s[k + 1] == c[i + k + 1];
    }
  }

  /** A task whose value is undefined starts a chain of `f + 1` tasks. */
  lemma {:induction false} FailurePath(tasks: seq<Task>, m: Metric, id: Id, f: nat) returns (c: seq<Id>)
    requires Closed(tasks) && id in IdSet(tasks) && Longest(tasks, m, id, f).None?
    ensures IsPath(tasks, c) && |c| == f + 1 && c[0] == id
    ensures forall i :: 0 <= i < |c| ==> c[i] in IdSet(tasks)
    decreases f
  {
    if f == 0 {
      c := [id];
    } else {
      var t := Lookup(tasks, id).value;
      var j := FarthestFailure(tasks, m, t.dependencies, f - 1);
      var d := t.dependencies[j];
      assert d in DepsOf(tasks, id);
      var rest := FailurePath(tasks, m, d, f - 1);
      c := [id] + rest;
      forall i | 0 <= i < |c| - 1
        ensures Step(tasks, c[i], c[i + 1])
      {
        if i > 0 {
          assert c[i] == rest[i - 1] && c[i + 1] == rest[i];
        }
      }
      forall i | 0 <= i < |c|
        ensures c[i] in IdSet(tasks)
      {
        if i > 0 {
          assert c[i] == rest[i - 1];
        }
      }
    }
  }

  /** On a closed list, an undefined value exhibits a cycle. */
  lemma {:induction false} UnresolvedHasCycle(tasks: seq<Task>, m: Metric)
    requires Closed(tasks)
    ensures !Resolves(tasks, m) ==> !Acyclic(tasks)
  {
    if !Resolves(tasks, m) {
      var id :| id in IdSet(tasks) && Longest(tasks, m, id, Fuel(tasks)).None?;
      var cycle := CycleFrom(tasks, m, id);
    }
  }

  lemma {:induction false} CycleFrom(tasks: seq<Task>, m: Metric, id: Id) returns (cycle: seq<Id>)
    requires Closed(tasks) && id in IdSet(tasks) && Longest(tasks, m, id, Fuel(tasks)).None?
    ensures IsPath(tasks, cycle) && |cycle| >= 2 && cycle[0] == cycle[|cycle| - 1]
  {
    var c := FailurePath(tasks, m, id, Fuel(tasks));
    Pigeonhole(c, IdSet(tasks));
    var i, j :| 0 <= i < j < |c| && c[i] == c[j];
    PathSlice(tasks, c, i, j);
    cycle := c[i..j + 1];
  }

  /** No task on a cycle has a value, whatever the fuel. */
  lemma {:induction false} CycleFails(tasks: seq<Task>, m: Metric, c: seq<Id>, f: nat)
    requires IsPath(tasks, c) && |c| >= 2 && c[0] == c[|c| - 1]
    ensures forall i :: 0 <= i < |c| - 1 ==> Longest(tasks, m, c[i], f).None?
    decreases f
  {
    if f > 0 {
      CycleFails(tasks, m, c, f - 1);
      forall i | 0 <= i < |c| - 1
        ensures Longest(tasks, m, c[i], f).None?
      {
        var next := if i + 1 < |c| - 1 then i + 1 else 0;
        assert c[i + 1] == c[next];
        assert Step(tasks, c[i], c[i + 1]);
        FarthestNeedsAll(tasks, m, DepsOf(tasks, c[i]), c[i + 1], f - 1);
      }
    }
  }

  lemma {:induction false} CycleBlocks(tasks: seq<Task>, m: Metric)
    ensures !Acyclic(tasks) ==> !Resolves(tasks, m)
  {
    if !Acyclic(tasks) {
      var c :| IsPath(tasks, c) && |c| >= 2 && c[0] == c[|c| - 1];
      CycleFails(tasks, m, c, Fuel(tasks));
      assert Step(tasks, c[0], c[1]);
    }
  }

  lemma {:induction false} ResolvesClosed(tasks: seq<Task>, m: Metric)
    ensures Resolves(tasks, m) ==> Closed(tasks)
  {
    if Resolves(tasks, m) {
      forall id | id in IdSet(tasks)
        ensures forall d | d in DepsOf(tasks, id) :: d in IdSet(tasks)
      {
        assert Longest(tasks, m, id, Fuel(tasks)).Some?;
        FarthestBounds(tasks, m, DepsOf(tasks, id), Fuel(tasks) - 1);
      }
    }
  }

  /**
    The engine is defined on exactly the closed, acyclic lists: a missing
    dependency id or a cycle (a self-dependency included) leaves some value
    undefined, and otherwise every value is defined.
  */
  lemma ResolvesIff(tasks: seq<Task>, m: Metric)
    ensures Resolves(tasks, m) <==> Closed(tasks) && Acyclic(tasks)
  {
    ResolvesClosed(tasks, m);
    CycleBlocks(tasks, m);
    if Closed(tasks) {
      UnresolvedHasCycle(tasks, m);
    }
  }

  lemma SchedulableIff(tasks: seq<Task>)
    ensures Schedulable(tasks) <==> Closed(tasks) && Acyclic(tasks)
  {
    ResolvesIff(tasks, StartTime);
    ResolvesIff(tasks, Level);
  }

  // ---------------------------------------------------------------------------
  // Lists that agree position by position

  /** Two lists with the same ids in the same positions look up the same position for every id. */
  lemma {:induction false} PointwiseLookup(a: seq<Task>, b: seq<Task>)
    requires |a| == |b| && forall i :: 0 <= i < |a| ==> a[i].id == b[i].id
    ensures Keys(a) == Keys(b) && IdSet(a) == IdSet(b)
    ensures forall k :: k in IdSet(a) ==>
      exists i :: 0 <= i < |a| && Lookup(a, k) == Some(a[i]) && Lookup(b, k) == Some(b[i])
  {
    if a != [] {
      PointwiseLookup(Init(a), Init(b));
      forall k | k in IdSet(a)
        ensures exists i :: 0 <= i < |a| && Lookup(a, k) == Some(a[i]) && Lookup(b, k) == Some(b[i])
      {
        if k == Last(a).id {
          assert Lookup(a, k) == Some(a[|a| - 1]) && Lookup(b, k) == Some(b[|b| - 1]);
        } else {
          assert k in IdSet(Init(a));
          var i :| 0 <= i < |Init(a)| && Lookup(Init(a), k) == Some(Init(a)[i]) && Lookup(Init(b), k) == Some(Init(b)[i]);
          assert Init(a)[i] == a[i] && Init(b)[i] == b[i];
          assert Last(a).id == Last(b).id by {
            assert a[|a| - 1].id == b[|a| - 1].id;
          }
          assert Lookup(a, k) == Lookup(Init(a), k);
          assert Lookup(b, k) == Lookup(Init(b), k);
        }
      }
    }
  }

  /** Same tasks up to derived fields, in the same key order. */
  ghost predicate Equivalent(a: seq<Task>, b: seq<Task>)
  {
    && Keys(a) == Keys(b)
    && forall k | k in IdSet(a) :: Bare(Lookup(a, k).value) == Bare(Lookup(b, k).value)
  }

  lemma {:induction false} EquivalentLongest(a: seq<Task>, b: seq<Task>, m: Metric, id: Id, f: nat)
    requires Equivalent(a, b)
    ensures Longest(a, m, id, f) == Longest(b, m, id, f)
    decreases f, 0, 0
  {
    if id in IdSet(a) && f > 0 {
      EquivalentFarthest(a, b, m, DepsOf(a, id), f - 1);
    }
  }

  lemma {:induction false} EquivalentFinish(a: seq<Task>, b: seq<Task>, m: Metric, id: Id, f: nat)
    requires Equivalent(a, b)
    ensures Finish(a, m, id, f) == Finish(b, m, id, f)
    decreases f, 1, 0
  {
    EquivalentLongest(a, b, m, id, f);
  }

  lemma {:induction false} EquivalentFarthest(a: seq<Task>, b: seq<Task>, m: Metric, deps: seq<Id>, f: nat)
    requires Equivalent(a, b)
    ensures Farthest(a, m, deps, f) == Farthest(b, m, deps, f)
    decreases f, 2, |deps|
  {
    if deps != [] {
      EquivalentFinish(a, b, m, deps[0], f);
      EquivalentFarthest(a, b, m, deps[1..], f);
    }
  }

  /** The engine reads only the equivalence class of its input. */
  /** Equivalent lists give every id the same value under `m`. */
  lemma EquivalentValues(a: seq<Task>, b: seq<Task>, m: Metric)
    requires Equivalent(a, b)
    ensures IdSet(a) == IdSet(b) && Fuel(a) == Fuel(b)
    ensures forall id | id in IdSet(a) :: Longest(a, m, id, Fuel(a)) == Longest(b, m, id, Fuel(b))
  {
    assert IdSet(a) == IdSet(b);
    forall id | id in IdSet(a)
      ensures Longest(a, m, id, Fuel(a)) == Longest(b, m, id, Fuel(b))
    {
      EquivalentLongest(a, b, m, id, Fuel(a));
    }
  }

  /** Equivalent lists have the same working copy of every id. */
  lemma EquivalentAnnotated(a: seq<Task>, b: seq<Task>, id: Id)
    requires Equivalent(a, b) && Schedulable(a) && Schedulable(b) && id in IdSet(a)
    requires ValueOf(a, StartTime, id) == ValueOf(b, StartTime, id)
    requires ValueOf(a, Level, id) == ValueOf(b, Level, id)
    ensures id in IdSet(b) && Annotated(a, id) == Annotated(b, id)
  {
    assert IdSet(a) == IdSet(b);
    assert Bare(Lookup(a, id).value) == Bare(Lookup(b, id).value);
  }

  lemma EquivalentScheduled(a: seq<Task>, b: seq<Task>)
    requires Equivalent(a, b)
    ensures Schedulable(a) <==> Schedulable(b)
    ensures Schedulable(a) ==> Scheduled(a) == Scheduled(b)
  {
    EquivalentValues(a, b, StartTime);
    EquivalentValues(a, b, Level);
    if Schedulable(a) {
      assert Schedulable(b);
      var ks := Keys(a);
      forall i | 0 <= i < |ks|
        ensures Scheduled(a)[i] == Scheduled(b)[i]
      {
        EquivalentAnnotated(a, b, ks[i]);
      }
    }
  }

  /**
    The derived fields of the input are ignored: `startTime` and `level` are
    reset and recomputed from scratch.
  */
  lemma ScheduleIgnoresDerivedFields(a: seq<Task>, b: seq<Task>)
    requires |a| == |b| && forall i :: 0 <= i < |a| ==> Bare(a[i]) == Bare(b[i])
    ensures Schedulable(a) <==> Schedulable(b)
    ensures Schedulable(a) ==> Scheduled(a) == Scheduled(b)
  {
    PointwiseLookup(a, b);
    EquivalentScheduled(a, b);
  }

  // ---------------------------------------------------------------------------
  // The engine's output

  lemma ScheduledIdAt(tasks: seq<Task>)
    requires Schedulable(tasks)
    ensures |Scheduled(tasks)| == |Keys(tasks)|
    ensures forall i :: 0 <= i < |Scheduled(tasks)| ==> Scheduled(tasks)[i].id == Keys(tasks)[i]
  {
  }

  lemma ScheduledIdSet(tasks: seq<Task>)
    requires Schedulable(tasks)
    ensures UniqueIds(Scheduled(tasks))
    ensures IdSet(Scheduled(tasks)) == IdSet(tasks)
  {
    ScheduledIdAt(tasks);
    var out := Scheduled(tasks);
    var ks := Keys(tasks);
    IdSetMembers(out);
    forall id
      ensures id in IdSet(out) <==> id in IdSet(tasks)
    {
      if id in ks {
        var i :| 0 <= i < |ks| && ks[i] == id;
        assert out[i].id == id;
      }
    }
  }

  lemma ScheduledIds(tasks: seq<Task>)
    requires Schedulable(tasks)
    ensures |Scheduled(tasks)| == |Keys(tasks)|
    ensures forall i :: 0 <= i < |Scheduled(tasks)| ==> Scheduled(tasks)[i].id == Keys(tasks)[i]
    ensures UniqueIds(Scheduled(tasks))
    ensures IdSet(Scheduled(tasks)) == IdSet(tasks)
    ensures Keys(Scheduled(tasks)) == Keys(tasks)
  {
    ScheduledIdAt(tasks);
    ScheduledIdSet(tasks);
    KeysOfUnique(Scheduled(tasks));
  }

  lemma {:induction false} ScheduledLookup(tasks: seq<Task>, k: Id)
    requires Schedulable(tasks) && k in IdSet(tasks)
    ensures Lookup(Scheduled(tasks), k) == Some(Annotated(tasks, k))
  {
    ScheduledIds(tasks);
    var i :| 0 <= i < |Keys(tasks)| && Keys(tasks)[i] == k;
    LookupUnique(Scheduled(tasks), i);
  }

  /** The engine writes only the derived fields: its output is equivalent to its input. */
  lemma ScheduledEquivalent(tasks: seq<Task>)
    requires Schedulable(tasks)
    ensures Equivalent(Scheduled(tasks), tasks)
  {
    var out := Scheduled(tasks);
    ScheduledIds(tasks);
    forall k | k in IdSet(out)
      ensures Bare(Lookup(out, k).value) == Bare(Lookup(tasks, k).value)
    {
      ScheduledLookup(tasks, k);
    }
  }

  /** Running the engine on its own output changes nothing. */
  lemma ScheduledIdempotent(tasks: seq<Task>)
    requires Schedulable(tasks)
    ensures Schedulable(Scheduled(tasks))
    ensures Scheduled(Scheduled(tasks)) == Scheduled(tasks)
  {
    ScheduledEquivalent(tasks);
    EquivalentScheduled(Scheduled(tasks), tasks);
  }

  /** With unique ids the output lists the same tasks in the same order, every non-derived field copied. */
  lemma ScheduledKeepsOrder(tasks: seq<Task>)
    requires Schedulable(tasks) && UniqueIds(tasks)
    ensures |Scheduled(tasks)| == |tasks|
    ensures forall i :: 0 <= i < |tasks| ==> Bare(Scheduled(tasks)[i]) == Bare(tasks[i])
  {
    KeysOfUnique(tasks);
    forall i | 0 <= i < |tasks|
      ensures Bare(Scheduled(tasks)[i]) == Bare(tasks[i])
    {
      LookupUnique(tasks, i);
    }
  }

  lemma FinishIsValue(tasks: seq<Task>, m: Metric, d: Id, f: nat)
    requires Resolves(tasks, m) && Longest(tasks, m, d, f).Some?
    ensures d in IdSet(tasks)
    ensures Finish(tasks, m, d, f) == Some(ValueOf(tasks, m, d) + Weight(m, Lookup(tasks, d).value))
  {
    FuelIrrelevant(tasks, m, d, f, Fuel(tasks));
  }

  /** No dependency finishes after the task's value. */
  lemma {:induction false} ValueBoundsFinish(tasks: seq<Task>, m: Metric, id: Id)
    requires Resolves(tasks, m) && id in IdSet(tasks)
    ensures forall d | d in DepsOf(tasks, id) ::
      d in IdSet(tasks) && ValueOf(tasks, m, d) + Weight(m, Lookup(tasks, d).value) <= ValueOf(tasks, m, id)
  {
    var n := Fuel(tasks);
    var deps := DepsOf(tasks, id);
    assert Longest(tasks, m, id, n).Some?;
    var far := Farthest(tasks, m, deps, n - 1);
    FarthestBounds(tasks, m, deps, n - 1);
    forall d | d in deps
      ensures d in IdSet(tasks) && ValueOf(tasks, m, d) + Weight(m, Lookup(tasks, d).value) <= far.value
    {
      var j :| 0 <= j < |deps| && deps[j] == d;
      FinishIsValue(tasks, m, d, n - 1);
    }
  }

  /** The task's value is 0 without dependencies, and otherwise the finish of one of them. */
  lemma {:induction false} ValueAttained(tasks: seq<Task>, m: Metric, id: Id)
    requires Resolves(tasks, m) && id in IdSet(tasks)
    ensures DepsOf(tasks, id) == [] ==> ValueOf(tasks, m, id) == 0
    ensures DepsOf(tasks, id) != [] ==> exists d | d in DepsOf(tasks, id) ::
      d in IdSet(tasks) && ValueOf(tasks, m, d) + Weight(m, Lookup(tasks, d).value) == ValueOf(tasks, m, id)
  {
    var n := Fuel(tasks);
    var deps := DepsOf(tasks, id);
    assert Longest(tasks, m, id, n).Some?;
    var far := Farthest(tasks, m, deps, n - 1);
    FarthestBounds(tasks, m, deps, n - 1);
    if deps != [] {
      var j :| 0 <= j < |deps| && Finish(tasks, m, deps[j], n - 1).value == far.value;
      FinishIsValue(tasks, m, deps[j], n - 1);
      assert deps[j] in deps;
    }
  }

  /** A task's value is the largest finish of its dependencies, and 0 without dependencies. */
  lemma ValueIsMaxFinish(tasks: seq<Task>, m: Metric, id: Id)
    requires Resolves(tasks, m) && id in IdSet(tasks)
    ensures forall d | d in DepsOf(tasks, id) ::
      d in IdSet(tasks) && ValueOf(tasks, m, d) + Weight(m, Lookup(tasks, d).value) <= ValueOf(tasks, m, id)
    ensures DepsOf(tasks, id) == [] ==> ValueOf(tasks, m, id) == 0
    ensures DepsOf(tasks, id) != [] ==> exists d | d in DepsOf(tasks, id) ::
      d in IdSet(tasks) && ValueOf(tasks, m, d) + Weight(m, Lookup(tasks, d).value) == ValueOf(tasks, m, id)
  {
    ValueBoundsFinish(tasks, m, id);
    ValueAttained(tasks, m, id);
  }

  /** The working copy carries the value of its metric and the weight of the original task. */
  lemma AnnotatedDerived(tasks: seq<Task>, m: Metric, k: Id)
    requires Schedulable(tasks) && k in IdSet(tasks)
    ensures Derived(Annotated(tasks, k), m) == ValueOf(tasks, m, k)
    ensures Weight(m, Annotated(tasks, k)) == Weight(m, Lookup(tasks, k).value)
    ensures Annotated(tasks, k).dependencies == DepsOf(tasks, k)
  {
  }

  /** Every id of the input has its working copy somewhere in the output. */
  lemma ScheduledPosition(tasks: seq<Task>, k: Id) returns (j: nat)
    requires Schedulable(tasks) && k in IdSet(tasks)
    ensures j < |Scheduled(tasks)| && Scheduled(tasks)[j] == Annotated(tasks, k)
    ensures Scheduled(tasks)[j].id == k
  {
    ScheduledIdAt(tasks);
    var ks := Keys(tasks);
    j :| 0 <= j < |ks| && ks[j] == k;
  }

  /** In the engine's output, no dependency of a task finishes after the task's derived value. */
  lemma {:induction false} DerivedBoundsFinish(tasks: seq<Task>, m: Metric, i: nat)
    requires Schedulable(tasks) && i < |Scheduled(tasks)|
    ensures var out := Scheduled(tasks);
      forall d | d in out[i].dependencies ::
        exists j :: 0 <= j < |out| && out[j].id == d && Derived(out[j], m) + Weight(m, out[j]) <= Derived(out[i], m)
  {
    var out := Scheduled(tasks);
    ScheduledIdAt(tasks);
    var id := Keys(tasks)[i];
    assert out[i] == Annotated(tasks, id);
    AnnotatedDerived(tasks, m, id);
    ValueBoundsFinish(tasks, m, id);
    forall d | d in DepsOf(tasks, id)
      ensures exists j :: 0 <= j < |out| && out[j].id == d && Derived(out[j], m) + Weight(m, out[j]) <= Derived(out[i], m)
    {
      var j := ScheduledPosition(tasks, d);
      AnnotatedDerived(tasks, m, d);
    }
  }

  /** In the engine's output, a task's derived value is 0 without dependencies and otherwise one dependency's finish. */
  lemma {:induction false} DerivedAttained(tasks: seq<Task>, m: Metric, i: nat)
    requires Schedulable(tasks) && i < |Scheduled(tasks)|
    ensures var out := Scheduled(tasks);
      && (out[i].dependencies == [] ==> Derived(out[i], m) == 0)
      && (out[i].dependencies != [] ==>
            exists j :: 0 <= j < |out| && out[j].id in out[i].dependencies && Derived(out[j], m) + Weight(m, out[j]) == Derived(out[i], m))
  {
    var out := Scheduled(tasks);
    ScheduledIdAt(tasks);
    var id := Keys(tasks)[i];
    assert out[i] == Annotated(tasks, id);
    AnnotatedDerived(tasks, m, id);
    var deps := DepsOf(tasks, id);
    ValueAttained(tasks, m, id);
    if deps != [] {
      var d :| d in deps && d in IdSet(tasks) && ValueOf(tasks, m, d) + Weight(m, Lookup(tasks, d).value) == ValueOf(tasks, m, id);
      var j := ScheduledPosition(tasks, d);
      AnnotatedDerived(tasks, m, d);
      assert out[j].id in out[i].dependencies && Derived(out[j], m) + Weight(m, out[j]) == Derived(out[i], m);
    }
  }

  /**
    In the engine's output, a task's derived value is at least every
    dependency's finish, equals one of them when there are dependencies, and is
    0 when there are none.
  */
  lemma DerivedIsLongestPath(tasks: seq<Task>, m: Metric, i: nat)
    requires Schedulable(tasks) && i < |Scheduled(tasks)|
    ensures var out := Scheduled(tasks);
      && (forall d | d in out[i].dependencies ::
            exists j :: 0 <= j < |out| && out[j].id == d && Derived(out[j], m) + Weight(m, out[j]) <= Derived(out[i], m))
      && (out[i].dependencies == [] ==> Derived(out[i], m) == 0)
      && (out[i].dependencies != [] ==>
            exists j :: 0 <= j < |out| && out[j].id in out[i].dependencies && Derived(out[j], m) + Weight(m, out[j]) == Derived(out[i], m))
  {
    DerivedBoundsFinish(tasks, m, i);
    DerivedAttained(tasks, m, i);
  }

  /** Earliest start: `startTime` is the latest finish of the dependencies, 0 without any. */
  lemma StartTimeIsLatestFinish(tasks: seq<Task>, i: nat)
    requires Schedulable(tasks) && i < |Scheduled(tasks)|
    ensures var out := Scheduled(tasks);
      && (forall d | d in out[i].dependencies ::
            exists j :: 0 <= j < |out| && out[j].id == d && out[j].startTime + out[j].duration <= out[i].startTime)
      && (out[i].dependencies == [] ==> out[i].startTime == 0)
      && (out[i].dependencies != [] ==>
            exists j :: 0 <= j < |out| && out[j].id in out[i].dependencies && out[j].startTime + out[j].duration == out[i].startTime)
  {
    DerivedIsLongestPath(tasks, StartTime, i);
  }

  /** Level: one more than the deepest dependency's level, 0 without dependencies. */
  lemma LevelIsOneAboveDeepest(tasks: seq<Task>, i: nat)
    requires Schedulable(tasks) && i < |Scheduled(tasks)|
    ensures var out := Scheduled(tasks);
      && (forall d | d in out[i].dependencies ::
            exists j :: 0 <= j < |out| && out[j].id == d && out[j].level + 1 <= out[i].level)
      && (out[i].dependencies == [] ==> out[i].level == 0)
      && (out[i].dependencies != [] ==>
            exists j :: 0 <= j < |out| && out[j].id in out[i].dependencies && out[j].level + 1 == out[i].level)
  {
    DerivedIsLongestPath(tasks, Level, i);
  }
}
