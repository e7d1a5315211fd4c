/** TaskManager: the map of tasks, the depth-first cycle check, and every operation that changes a task.
    Each operation runs under the write lock, so each is one atomic step. */
module TaskManager {
  import opened Identifiers
  import opened Json
  import opened Sequences
  import opened TaskGraph
  import opened Wrappers

  datatype TaskStatus = Pending | InProgress | Blocked | Completed | Failed | Cancelled

  datatype TaskPriority = Low | Medium | High | Critical

  /** Times are system-clock ticks since the epoch, in nanoseconds. */
  datatype Task = Task(
    id: Id,
    title: string,
    description: string,
    assignee: string,
    creator: string,
    status: TaskStatus,
    priority: TaskPriority,
    dependencies: seq<Id>,
    tags: seq<string>,
    context: Json,
    createdAt: int,
    updatedAt: int,
    deadline: Option<int>,
    completedAt: Option<int>)

  type Tasks = map<Id, Task>

  ghost function DepsOf(ts: Tasks): Graph {
    map id | id in ts :: ts[id].dependencies
  }

  /** Position of the first x in s, or |s| when there is none. */
  function FindIndex<T(==)>(s: seq<T>, x: T): (k: nat)
    ensures k <= |s| && x !in s[..k]
    ensures k < |s| ==> s[k] == x
  {
    if s == [] then 0
    else if s[0] == x then 0
    else
      var k := FindIndex(s[1..], x);
      assert s[..k + 1] == [s[0]] + s[1..][..k];
      k + 1
  }

  function WithoutFirst<T(==)>(s: seq<T>, x: T): seq<T> {
    var k := FindIndex(s, x);
    if k == |s| then s else s[..k] + s[k + 1..]
  }

  // ----- the operations as steps on the map -----

  /** Ids and clock readings are inputs of the step that uses them. */
  datatype Op =
    | Create(id: Id, title: string, creator: string, description: string, priority: TaskPriority,
             createdAt: int, updatedAt: int)
    | Restore(task: Task)
    | Update(id: Id, task: Task, now: int)
    | Delete(id: Id)
    | Assign(id: Id, agent: string, now: int)
    | SetStatus(id: Id, status: TaskStatus, now: int, completedNow: int)
    | AddDependency(id: Id, dep: Id, now: int)
    | RemoveDependency(id: Id, dep: Id, now: int)
    | AddTag(id: Id, tag: string, now: int)

  function NewTask(op: Op): Task
    requires op.Create?
  {
    Task(op.id, op.title, op.description, "", op.creator, Pending, op.priority, [], [], JNull,
         op.createdAt, op.updatedAt, None, None)
  }

  /** The boolean the operation returns (creation and restoring return no failure). */
  ghost predicate Succeeds(ts: Tasks, op: Op) {
    match op
    case Create(_, _, _, _, _, _, _) => true
    case Restore(_) => true
    case AddDependency(id, dep, _) => id in ts && dep in ts && !Reaches(DepsOf(ts), dep, id)
    case _ => op.id in ts
  }

  ghost function Apply(ts: Tasks, op: Op): Tasks {
    if !Succeeds(ts, op) then ts
    else match op
      case Create(id, _, _, _, _, _, _) => ts[id := NewTask(op)]
      case Restore(task) => ts[task.id := task]
      case Update(id, task, now) => ts[id := task.(updatedAt := now)]
      case Delete(id) => ts - {id}
      case Assign(id, agent, now) =>
        ts[id := ts[id].(assignee := agent, status := InProgress, updatedAt := now)]
      case SetStatus(id, status, now, completedNow) =>
        ts[id := ts[id].(status := status, updatedAt := now,
                         completedAt := if status == Completed then Some(completedNow) else ts[id].completedAt)]
      case AddDependency(id, dep, now) =>
        if dep in ts[id].dependencies then ts
        else ts[id := ts[id].(dependencies := ts[id].dependencies + [dep], updatedAt := now)]
      case RemoveDependency(id, dep, now) =>
        if dep !in ts[id].dependencies then ts
        else ts[id := ts[id].(dependencies := WithoutFirst(ts[id].dependencies, dep), updatedAt := now)]
      case AddTag(id, tag, now) =>
        if tag in ts[id].tags then ts
        else ts[id := ts[id].(tags := ts[id].tags + [tag], updatedAt := now)]
  }

  ghost function Run(ts: Tasks, ops: seq<Op>): Tasks
    decreases |ops|
  {
    if ops == [] then ts else Run(Apply(ts, ops[0]), ops[1..])
  }

  // ----- the invariant -----

  /** What every run keeps: no dependency cycle, no repeated dependency, each task under its own id. */
  ghost predicate WellFormed(ts: Tasks) {
    && Acyclic(DepsOf(ts))
    && (forall id :: id in ts ==> NoDuplicates(ts[id].dependencies))
    && (forall id :: id in ts ==> ts[id].id == id)
  }

  ghost predicate Fits(ts: Tasks, id: Id, task: Task) {
    && task.id == id
    && NoDuplicates(task.dependencies)
    && forall d :: d in task.dependencies ==> !Reaches(DepsOf(ts), d, id)
  }

  /** The operations that install a caller-made task are safe exactly when it fits the map;
      the others always are. */
  ghost predicate Safe(ts: Tasks, op: Op) {
    match op
    case Restore(task) => Fits(ts, task.id, task)
    case Update(id, task, _) => id in ts ==> Fits(ts, id, task)
    case _ => true
  }

  lemma InstallKeepsWellFormedIff(ts: Tasks, id: Id, task: Task)
    requires WellFormed(ts)
    ensures WellFormed(ts[id := task]) <==> Fits(ts, id, task)
  {
    var ts' := ts[id := task];
    assert DepsOf(ts') == DepsOf(ts)[id := task.dependencies];
    OverwriteAcyclicIff(DepsOf(ts), id, task.dependencies);
    assert ts'[id] == task;
    forall k | k in ts && k != id ensures ts'[k] == ts[k] {}
  }

  lemma SameEdgesStayWellFormed(ts: Tasks, ts': Tasks)
    requires WellFormed(ts)
    requires forall id :: id in ts' ==> id in ts && ts'[id].id == id
    requires forall id :: id in ts' ==> ts'[id].dependencies == ts[id].dependencies
    ensures WellFormed(ts')
  {
    FewerEdgesStayAcyclic(DepsOf(ts'), DepsOf(ts));
  }

  lemma AddKeepsWellFormed(ts: Tasks, id: Id, dep: Id, now: int)
    requires WellFormed(ts)
    ensures WellFormed(Apply(ts, AddDependency(id, dep, now)))
  {
    var op := AddDependency(id, dep, now);
    if Succeeds(ts, op) && dep !in ts[id].dependencies {
      AppendAcyclicIff(DepsOf(ts), id, dep);
      assert DepsOf(Apply(ts, op)) == DepsOf(ts)[id := ts[id].dependencies + [dep]];
    }
  }

  lemma WithoutFirstShrinks<T>(s: seq<T>, x: T)
    ensures forall y :: y in WithoutFirst(s, x) ==> y in s
    ensures NoDuplicates(s) ==> NoDuplicates(WithoutFirst(s, x))
  {
  }

  lemma FewerDependenciesStayWellFormed(ts: Tasks, id: Id, task: Task)
    requires WellFormed(ts) && id in ts && task.id == id && NoDuplicates(task.dependencies)
    requires forall d :: d in task.dependencies ==> d in ts[id].dependencies
    ensures WellFormed(ts[id := task])
  {
    FewerEdgesStayAcyclic(DepsOf(ts[id := task]), DepsOf(ts));
  }

  lemma RemoveKeepsWellFormed(ts: Tasks, id: Id, dep: Id, now: int)
    requires WellFormed(ts)
    ensures WellFormed(Apply(ts, RemoveDependency(id, dep, now)))
  {
    if id in ts && dep in ts[id].dependencies {
      WithoutFirstShrinks(ts[id].dependencies, dep);
      var deps := WithoutFirst(ts[id].dependencies, dep);
      FewerDependenciesStayWellFormed(ts, id, ts[id].(dependencies := deps, updatedAt := now));
    }
  }

  lemma FieldUpdateKeepsWellFormed(ts: Tasks, op: Op)
    requires WellFormed(ts)
    requires op.Delete? || op.Assign? || op.SetStatus? || op.AddTag?
    ensures WellFormed(Apply(ts, op))
  {
    SameEdgesStayWellFormed(ts, Apply(ts, op));
  }

  /** One step keeps the map well formed if and only if it is safe. */
  lemma StepKeepsWellFormedIff(ts: Tasks, op: Op)
    requires WellFormed(ts)
    ensures WellFormed(Apply(ts, op)) <==> Safe(ts, op)
  {
    match op
    case Create(id, _, _, _, _, _, _) => InstallKeepsWellFormedIff(ts, id, NewTask(op));
    case Restore(task) => InstallKeepsWellFormedIff(ts, task.id, task);
    case Update(id, task, now) => InstallKeepsWellFormedIff(ts, id, task.(updatedAt := now));
    case AddDependency(id, dep, now) => AddKeepsWellFormed(ts, id, dep, now);
    case RemoveDependency(id, dep, now) => RemoveKeepsWellFormed(ts, id, dep, now);
    case _ => FieldUpdateKeepsWellFormed(ts, op);
  }

  /** Every operation but wholesale installation of a task. */
  predicate Ordinary(op: Op) {
    !op.Restore? && !op.Update?
  }

  ghost predicate SafeRun(ts: Tasks, ops: seq<Op>)
    decreases |ops|
  {
    ops == [] || (Safe(ts, ops[0]) && SafeRun(Apply(ts, ops[0]), ops[1..]))
  }

  lemma {:induction false} SafeRunStaysWellFormed(ts: Tasks, ops: seq<Op>)
    requires WellFormed(ts) && SafeRun(ts, ops)
    ensures WellFormed(Run(ts, ops))
    decreases |ops|
  {
    if ops == [] {
    } else {
      StepKeepsWellFormedIff(ts, ops[0]);
      SafeRunStaysWellFormed(Apply(ts, ops[0]), ops[1..]);
    }
  }

  lemma {:induction false} OrdinaryRunsAreSafe(ts: Tasks, ops: seq<Op>)
    requires forall op :: op in ops ==> Ordinary(op)
    ensures SafeRun(ts, ops)
    decreases |ops|
  {
    if ops == [] {
    } else {
      assert Ordinary(ops[0]);
      OrdinaryRunsAreSafe(Apply(ts, ops[0]), ops[1..]);
    }
  }

  /** From the empty manager, no sequence of ordinary operations ever creates a dependency cycle,
      a repeated dependency or a task stored under another task's id. */
  lemma EveryRunIsWellFormed(ops: seq<Op>)
    requires forall op :: op in ops ==> Ordinary(op)
    ensures WellFormed(Run(map[], ops))
  {
    OrdinaryRunsAreSafe(map[], ops);
    NoEdgesNoCycles();
    assert DepsOf(map[]) == map[];
    SafeRunStaysWellFormed(map[], ops);
  }

  lemma AppendedEdge(g: Graph, id: Id, dep: Id)
    requires id in g
    ensures forall u, v :: Edge(g[id := g[id] + [dep]], u, v) <==> Edge(g, u, v) || (u == id && v == dep)
  {
    var g' := g[id := g[id] + [dep]];
    forall u, v ensures Edge(g', u, v) <==> Edge(g, u, v) || (u == id && v == dep) {
      assert v in g[id] + [dep] <==> v in g[id] || v == dep;
    }
  }

  lemma AddedEdge(ts: Tasks, id: Id, dep: Id, now: int)
    requires Succeeds(ts, AddDependency(id, dep, now))
    ensures var g, g' := DepsOf(ts), DepsOf(Apply(ts, AddDependency(id, dep, now)));
            if Edge(g, id, dep) then g' == g else g' == g[id := g[id] + [dep]]
  {
  }

  /** add_dependency says no exactly when an id is missing or the new edge would close a cycle,
      and then changes nothing; when it says yes the edge is there and every other edge is as before. */
  lemma AddDependencyIsExact(ts: Tasks, id: Id, dep: Id, now: int)
    requires WellFormed(ts)
    ensures var op := AddDependency(id, dep, now);
            && (Succeeds(ts, op) <==>
                id in ts && dep in ts && Acyclic(DepsOf(ts)[id := DepsOf(ts)[id] + [dep]]))
            && (!Succeeds(ts, op) ==> Apply(ts, op) == ts)
            && (Succeeds(ts, op) ==>
                  forall u, v :: Edge(DepsOf(Apply(ts, op)), u, v) <==>
                                 Edge(DepsOf(ts), u, v) || (u == id && v == dep))
  {
    if id in ts {
      AppendAcyclicIff(DepsOf(ts), id, dep);
      AppendedEdge(DepsOf(ts), id, dep);
    }
    if Succeeds(ts, AddDependency(id, dep, now)) {
      AddedEdge(ts, id, dep, now);
    }
  }

  /** s without the element at position k. */
  ghost predicate ErasedAt<T>(s: seq<T>, k: nat, r: seq<T>) {
    && k < |s| && |r| == |s| - 1
    && (forall i :: 0 <= i < k ==> r[i] == s[i])
    && forall i :: k <= i < |r| ==> r[i] == s[i + 1]
  }

  lemma FoundIffThere<T>(s: seq<T>, x: T)
    ensures FindIndex(s, x) < |s| <==> x in s
  {
    if FindIndex(s, x) == |s| {
      assert s[..|s|] == s;
    }
  }

  lemma {:induction false} FoundFirst<T>(s: seq<T>, x: T, k: nat)
    requires k < |s| && s[k] == x && x !in s[..k]
    ensures FindIndex(s, x) == k
  {
    if k == 0 {
    } else {
      assert s[0] == s[..k][0] && s[1..][..k - 1] == s[..k][1..];
      FoundFirst(s[1..], x, k - 1);
    }
  }

  lemma WithoutFirstErases<T>(s: seq<T>, x: T)
    ensures x !in s ==> WithoutFirst(s, x) == s
    ensures x in s ==> exists k: nat :: ErasedAt(s, k, WithoutFirst(s, x)) && s[k] == x && x !in s[..k]
  {
    var k := FindIndex(s, x);
    FoundIffThere(s, x);
    if x in s {
      assert ErasedAt(s, k, WithoutFirst(s, x));
    }
  }

  lemma ErasedMembers<T>(s: seq<T>, k: nat, r: seq<T>)
    requires NoDuplicates(s) && ErasedAt(s, k, r)
    ensures forall y :: y in r <==> y in s && y != s[k]
  {
    forall y | y in s && y != s[k] ensures y in r {
      var i :| 0 <= i < |s| && s[i] == y;
      assert y == if i < k then r[i] else r[i - 1];
    }
  }

  lemma RemovedDependency(ts: Tasks, id: Id, dep: Id, now: int)
    requires WellFormed(ts) && id in ts && dep in ts[id].dependencies
    ensures var deps, deps' := ts[id].dependencies, WithoutFirst(ts[id].dependencies, dep);
            && Apply(ts, RemoveDependency(id, dep, now)) == ts[id := ts[id].(dependencies := deps', updatedAt := now)]
            && (forall d :: d in deps' <==> d in deps && d != dep)
            && exists k: nat :: ErasedAt(deps, k, deps') && deps[k] == dep
  {
    var deps := ts[id].dependencies;
    WithoutFirstErases(deps, dep);
    var k: nat :| ErasedAt(deps, k, WithoutFirst(deps, dep)) && deps[k] == dep;
    ErasedMembers(deps, k, WithoutFirst(deps, dep));
  }

  lemma RemovedEdge(g: Graph, id: Id, dep: Id, deps: seq<Id>)
    requires id in g && forall d :: d in deps <==> d in g[id] && d != dep
    ensures forall u, v :: Edge(g[id := deps], u, v) <==> Edge(g, u, v) && !(u == id && v == dep)
  {
  }

  lemma InstalledEdges(ts: Tasks, id: Id, task: Task)
    ensures DepsOf(ts[id := task]) == DepsOf(ts)[id := task.dependencies]
  {
  }

  /** remove_dependency says no exactly when the task is missing. Otherwise that one edge is gone and every other edge
      is as before; the other dependencies keep their order; and nothing else changes but the time of the update,
      which changes only with the list. */
  lemma RemoveDependencyIsExact(ts: Tasks, id: Id, dep: Id, now: int)
    requires WellFormed(ts)
    ensures var op := RemoveDependency(id, dep, now); var ts' := Apply(ts, op);
            && (Succeeds(ts, op) <==> id in ts)
            && (!Succeeds(ts, op) || !Edge(DepsOf(ts), id, dep) ==> ts' == ts)
            && (forall u, v :: Edge(DepsOf(ts'), u, v) <==> Edge(DepsOf(ts), u, v) && !(u == id && v == dep))
            && (Edge(DepsOf(ts), id, dep) ==>
                  && id in ts'
                  && ts' - {id} == ts - {id}
                  && ts'[id] == ts[id].(dependencies := ts'[id].dependencies, updatedAt := now)
                  && exists k: nat :: ErasedAt(ts[id].dependencies, k, ts'[id].dependencies) &&
                                      ts[id].dependencies[k] == dep)
  {
    if Edge(DepsOf(ts), id, dep) {
      RemovedDependency(ts, id, dep, now);
      var deps := WithoutFirst(ts[id].dependencies, dep);
      InstalledEdges(ts, id, ts[id].(dependencies := deps, updatedAt := now));
      RemovedEdge(DepsOf(ts), id, dep, deps);
    }
  }

  lemma RemoveLast<T>(s: seq<T>, x: T)
    requires x !in s
    ensures WithoutFirst(s + [x], x) == s
  {
    assert (s + [x])[|s|] == x && (s + [x])[..|s|] == s;
    FoundFirst(s + [x], x, |s|);
  }

  /** Removing a dependency that was just added gives back the old graph. */
  lemma RemoveUndoesAdd(ts: Tasks, id: Id, dep: Id, now: int, later: int)
    requires Succeeds(ts, AddDependency(id, dep, now)) && !Edge(DepsOf(ts), id, dep)
    ensures DepsOf(Apply(Apply(ts, AddDependency(id, dep, now)), RemoveDependency(id, dep, later))) == DepsOf(ts)
  {
    var ts' := Apply(ts, AddDependency(id, dep, now));
    assert dep in ts'[id].dependencies;
    RemoveLast(ts[id].dependencies, dep);
  }

  /** Overwriting a task wholesale does break acyclicity: A depends on B, then B is given A. */
  lemma UpdateCanCloseCycle(t: Task)
    ensures var a := t.(id := "A", dependencies := ["B"]);
            var b := t.(id := "B", dependencies := []);
            var ts := map["A" := a, "B" := b];
            && WellFormed(ts)
            && !WellFormed(Apply(ts, Update("B", b.(dependencies := ["A"]), 0)))
  {
    var a := t.(id := "A", dependencies := ["B"]);
    var b := t.(id := "B", dependencies := []);
    var ts := map["A" := a, "B" := b];
    forall p | IsPath(DepsOf(ts), p) && |p| >= 2 ensures p[0] != p[|p| - 1] {
      assert Edge(DepsOf(ts), p[0], p[1]) && Edge(DepsOf(ts), p[|p| - 2], p[|p| - 2 + 1]);
    }
    var op := Update("B", b.(dependencies := ["A"]), 0);
    assert PathBetween(DepsOf(ts), ["A", "B"], "A", "B");
    assert "A" in op.task.dependencies;
    StepKeepsWellFormedIff(ts, op);
  }

  // ----- readiness -----

  /** A pending task all of whose dependencies are stored and completed. */
  predicate Ready(ts: Tasks, id: Id) {
    && id in ts
    && ts[id].status == Pending
    && forall d :: d in ts[id].dependencies ==> d in ts && ts[d].status == Completed
  }

  ghost predicate ListedAs(ts: Tasks, listed: seq<Task>, order: seq<Id>) {
    && NoDuplicates(order) && |listed| == |order|
    && (forall id :: id in order <==> Ready(ts, id))
    && forall i :: 0 <= i < |order| ==> order[i] in ts && listed[i] == ts[order[i]]
  }

  /** The list holds what is stored under each ready id, once for each, in some order. */
  ghost predicate ListsReady(ts: Tasks, listed: seq<Task>) {
    exists order :: ListedAs(ts, listed, order)
  }

  // ----- the search -----

  /** Every edge out of a visited id leads to a visited id or to one still on the stack. */
  ghost predicate Explored(g: Graph, visited: set<Id>, stack: seq<Id>) {
    forall u, v :: u in visited && Edge(g, u, v) ==> v in visited || v in stack
  }

  lemma ExpandExplored(g: Graph, visited: set<Id>, popped: seq<Id>, current: Id)
    requires Explored(g, visited, popped + [current])
    ensures Explored(g, visited + {current}, if current in g then popped + g[current] else popped)
  {
  }

  lemma ExhaustedMeansNo(g: Graph, visited: set<Id>, start: Id, id: Id)
    requires Explored(g, visited, []) && start in visited && id !in visited
    ensures !Reaches(g, start, id)
  {
    if Reaches(g, start, id) {
      var p :| PathBetween(g, p, start, id);
      ClosedSetTraps(g, visited, p);
    }
  }

  ghost predicate AllReached(g: Graph, start: Id, visited: set<Id>, stack: seq<Id>) {
    forall x :: x in stack || x in visited ==> Reaches(g, start, x)
  }

  lemma ExpandReached(g: Graph, start: Id, visited: set<Id>, popped: seq<Id>, current: Id)
    requires AllReached(g, start, visited, popped + [current])
    ensures Reaches(g, start, current) && AllReached(g, start, visited, popped)
    ensures AllReached(g, start, visited + {current}, if current in g then popped + g[current] else popped)
  {
    assert current in popped + [current];
    assert forall x :: x in popped ==> x in popped + [current];
    if current in g {
      forall d | d in g[current] ensures Reaches(g, start, d) {
        ReachesExtend(g, start, current, d);
      }
    }
  }

  /** Visiting an id takes its own dependency list from what is left to push. */
  lemma RestAfter(g: Graph, visited: set<Id>, current: Id)
    requires current !in visited
    ensures TotalDependencies(g - (visited + {current})) + (if current in g then |g[current]| else 0) ==
            TotalDependencies(g - visited)
  {
    assert g - (visited + {current}) == g - visited - {current};
    if current in g {
      TotalWithout(g - visited, current);
    } else {
      assert g - visited - {current} == g - visited;
    }
  }

  lemma PushedOneMore(popped: seq<Id>, deps: seq<Id>, k: nat)
    requires k < |deps|
    ensures popped + deps[..k] + [deps[k]] == popped + deps[..k + 1]
  {
  }

  /** The state of the search before each round: how much is left to do, and why it may answer. */
  ghost predicate Searching(g: Graph, start: Id, id: Id, visited: set<Id>, stack: seq<Id>, rounds: nat) {
    && AllReached(g, start, visited, stack)
    && id !in visited
    && (start in visited || start in stack)
    && Explored(g, visited, stack)
    && rounds + |stack| + TotalDependencies(g - visited) == 1 + TotalDependencies(g)
  }

  lemma SearchStarts(g: Graph, start: Id, id: Id)
    ensures Searching(g, start, id, {}, [start], 0)
  {
    ReachesSelf(g, start);
    assert g - {} == g;
  }

  lemma SkipStep(g: Graph, start: Id, id: Id, visited: set<Id>, popped: seq<Id>, current: Id, rounds: nat)
    requires Searching(g, start, id, visited, popped + [current], rounds) && current in visited
    ensures Searching(g, start, id, visited, popped, rounds + 1)
  {
    ExpandReached(g, start, visited, popped, current);
    ExpandExplored(g, visited, popped, current);
    assert start in popped + [current] ==> start in popped || start == current;
  }

  lemma ExpandStep(g: Graph, start: Id, id: Id, visited: set<Id>, popped: seq<Id>, current: Id, rounds: nat)
    requires Searching(g, start, id, visited, popped + [current], rounds) && current !in visited && current != id
    ensures Searching(g, start, id, visited + {current}, if current in g then popped + g[current] else popped,
                      rounds + 1)
  {
    ExpandReached(g, start, visited, popped, current);
    ExpandExplored(g, visited, popped, current);
    RestAfter(g, visited, current);
    assert start in popped + [current] ==> start in popped || start == current;
  }

  // ----- the class -----

  class Manager {
    var tasks: map<Id, Task>

    constructor ()
      ensures tasks == map[]
    {
      tasks := map[];
    }

    /** Depth-first search from depId with an explicit stack, on any graph at all.
        `rounds` counts the iterations of the loop. */
    method WouldCreateCycle(id: Id, depId: Id) returns (found: bool, ghost rounds: nat)
      ensures found <==> Reaches(DepsOf(tasks), depId, id)
      ensures rounds <= 1 + TotalDependencies(DepsOf(tasks))
    {
      ghost var g := DepsOf(tasks);
      var visited: set<Id> := {};
      var stack: seq<Id> := [depId];
      rounds := 0;
      SearchStarts(g, depId, id);
      while stack != []
        invariant Searching(g, depId, id, visited, stack, rounds)
        decreases 1 + TotalDependencies(g) - rounds
      {
        var current := stack[|stack| - 1];
        ghost var popped := stack[..|stack| - 1];
        assert stack == popped + [current];
        stack := stack[..|stack| - 1];
        ghost var before := rounds;
        rounds := rounds + 1;
        if current == id {
          ExpandReached(g, depId, visited, popped, current);
          return true, rounds;
        }
        if current in visited {
          SkipStep(g, depId, id, visited, popped, current, before);
          continue;
        }
        ExpandStep(g, depId, id, visited, popped, current, before);
        visited := visited + {current};
        if current in tasks {
          var deps := tasks[current].dependencies;
          for k := 0 to |deps|
            invariant stack == popped + deps[..k]
          {
            PushedOneMore(popped, deps, k);
            stack := stack + [deps[k]];
          }
          assert deps[..|deps|] == deps;
        }
      }
      ExhaustedMeansNo(g, visited, depId, id);
      return false, rounds;
    }

    method CreateTask(id: Id, title: string, creator: string, description: string, priority: TaskPriority,
                      createdAt: int, updatedAt: int) returns (task: Task)
      modifies this
      ensures task == NewTask(Create(id, title, creator, description, priority, createdAt, updatedAt))
      ensures tasks == Apply(old(tasks), Create(id, title, creator, description, priority, createdAt, updatedAt))
    {
      task := Task(id, title, description, "", creator, Pending, priority, [], [], JNull,
                   createdAt, updatedAt, None, None);
      tasks := tasks[id := task];
    }

    method RestoreTask(task: Task)
      modifies this
      ensures tasks == Apply(old(tasks), Restore(task))
    {
      tasks := tasks[task.id := task];
    }

    method UpdateTask(id: Id, task: Task, now: int) returns (ok: bool)
      modifies this
      ensures tasks == Apply(old(tasks), Update(id, task, now))
      ensures ok == Succeeds(old(tasks), Update(id, task, now))
    {
      if id !in tasks { return false; }
      tasks := tasks[id := task];
      tasks := tasks[id := tasks[id].(updatedAt := now)];
      return true;
    }

    method DeleteTask(id: Id) returns (ok: bool)
      modifies this
      ensures tasks == Apply(old(tasks), Delete(id))
      ensures ok == Succeeds(old(tasks), Delete(id))
    {
      if id !in tasks { return false; }
      tasks := tasks - {id};
      return true;
    }

    method AssignTask(id: Id, agent: string, now: int) returns (ok: bool)
      modifies this
      ensures tasks == Apply(old(tasks), Assign(id, agent, now))
      ensures ok == Succeeds(old(tasks), Assign(id, agent, now))
    {
      if id !in tasks { return false; }
      var task := tasks[id];
      tasks := tasks[id := task.(assignee := agent, status := InProgress, updatedAt := now)];
      return true;
    }

    method UpdateStatus(id: Id, status: TaskStatus, now: int, completedNow: int) returns (ok: bool)
      modifies this
      ensures tasks == Apply(old(tasks), SetStatus(id, status, now, completedNow))
      ensures ok == Succeeds(old(tasks), SetStatus(id, status, now, completedNow))
    {
      if id !in tasks { return false; }
      tasks := tasks[id := tasks[id].(status := status, updatedAt := now)];
      if status == Completed {
        tasks := tasks[id := tasks[id].(completedAt := Some(completedNow))];
      }
      return true;
    }

    method AddDependencyEdge(id: Id, dep: Id, now: int) returns (ok: bool)
      modifies this
      ensures tasks == Apply(old(tasks), AddDependency(id, dep, now))
      ensures ok == Succeeds(old(tasks), AddDependency(id, dep, now))
    {
      if id !in tasks { return false; }
      if dep !in tasks { return false; }
      if id == dep {
        ReachesSelf(DepsOf(tasks), id);
        return false;
      }
      var closesCycle, _ := WouldCreateCycle(id, dep);
      if closesCycle { return false; }
      var deps := tasks[id].dependencies;
      if FindIndex(deps, dep) == |deps| {
        assert deps[..|deps|] == deps;
        tasks := tasks[id := tasks[id].(dependencies := deps + [dep], updatedAt := now)];
      }
      return true;
    }

    method RemoveDependencyEdge(id: Id, dep: Id, now: int) returns (ok: bool)
      modifies this
      ensures tasks == Apply(old(tasks), RemoveDependency(id, dep, now))
      ensures ok == Succeeds(old(tasks), RemoveDependency(id, dep, now))
    {
      if id !in tasks { return false; }
      var deps := tasks[id].dependencies;
      var k := FindIndex(deps, dep);
      if k != |deps| {
        tasks := tasks[id := tasks[id].(dependencies := deps[..k] + deps[k + 1..], updatedAt := now)];
      } else {
        assert deps[..|deps|] == deps;
      }
      return true;
    }

    method AddTaskTag(id: Id, tag: string, now: int) returns (ok: bool)
      modifies this
      ensures tasks == Apply(old(tasks), AddTag(id, tag, now))
      ensures ok == Succeeds(old(tasks), AddTag(id, tag, now))
    {
      if id !in tasks { return false; }
      var tags := tasks[id].tags;
      if FindIndex(tags, tag) == |tags| {
        assert tags[..|tags|] == tags;
        tasks := tasks[id := tasks[id].(tags := tags + [tag], updatedAt := now)];
      }
      return true;
    }

    /** The ready tasks, each exactly once, in an order the map decides. */
    method GetReadyTasks() returns (ready: seq<Task>)
      ensures ListsReady(tasks, ready)
    {
      ready := [];
      ghost var order: seq<Id> := [];
      var left := tasks.Keys;
      while left != {}
        invariant left <= tasks.Keys
        invariant NoDuplicates(order)
        invariant forall id :: id in order <==> id in tasks && id !in left && Ready(tasks, id)
        invariant |ready| == |order| && forall i :: 0 <= i < |order| ==> ready[i] == tasks[order[i]]
        decreases left
      {
        var id :| id in left;
        left := left - {id};
        var task := tasks[id];
        if task.status != Pending { continue; }
        var allComplete := true;
        for k := 0 to |task.dependencies|
          invariant allComplete <==> forall j :: 0 <= j < k ==>
            task.dependencies[j] in tasks && tasks[task.dependencies[j]].status == Completed
        {
          var dep := task.dependencies[k];
          if dep !in tasks || tasks[dep].status != Completed {
            allComplete := false;
            break;
          }
        }
        if allComplete {
          ready, order := ready + [task], order + [id];
        }
      }
      assert ListedAs(tasks, ready, order);
    }
  }
}
