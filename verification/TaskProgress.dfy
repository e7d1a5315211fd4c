/** Progress of a well-formed task set: something is always ready, and completing ready tasks
    one after another finishes everything, in dependency order. */
module TaskProgress {
  import opened Identifiers
  import opened Sequences
  import opened Sets
  import opened TaskGraph
  import opened TaskManager
  import opened Wrappers

  ghost predicate DependenciesStored(ts: Tasks, id: Id)
    requires id in ts
  {
    forall d :: d in ts[id].dependencies ==> d in ts
  }

  /** Every dependency is stored, and every task is either still pending or already completed. */
  ghost predicate Drainable(ts: Tasks) {
    && Acyclic(DepsOf(ts))
    && (forall id :: id in ts ==> DependenciesStored(ts, id))
    && (forall id :: id in ts ==> ts[id].status == Pending || ts[id].status == Completed)
  }

  ghost function PendingIds(ts: Tasks): set<Id> {
    set id | id in ts && ts[id].status == Pending
  }

  // ----- something is ready -----

  lemma {:induction false} DistinctFit(p: seq<Id>, s: set<Id>)
    requires NoDuplicates(p) && forall x :: x in p ==> x in s
    ensures |p| <= |s|
  {
    if p == [] {
    } else {
      assert p[0] in p && p[0] !in p[1..];
      DistinctFit(p[1..], s - {p[0]});
    }
  }

  /** Following unfinished dependencies from a pending task must end at a ready one. */
  lemma {:induction false} ChainEndsReady(ts: Tasks, p: seq<Id>) returns (id: Id)
    requires Drainable(ts)
    requires IsPath(DepsOf(ts), p) && forall x :: x in p ==> x in PendingIds(ts)
    ensures Ready(ts, id)
    decreases |ts.Keys| - |p|
  {
    AcyclicPathsAreSimple(DepsOf(ts), p);
    DistinctFit(p, ts.Keys);
    id := p[|p| - 1];
    assert id in p;
    if Ready(ts, id) {
    } else {
      var d :| d in ts[id].dependencies && ts[d].status != Completed;
      var longer := p + [d];
      assert IsPath(DepsOf(ts), longer) by {
        assert Edge(DepsOf(ts), id, d);
      }
      AcyclicPathsAreSimple(DepsOf(ts), longer);
      DistinctFit(longer, ts.Keys);
      id := ChainEndsReady(ts, longer);
    }
  }

  /** get_ready_tasks is never empty while a task is pending. */
  lemma SomethingIsReady(ts: Tasks)
    requires Drainable(ts) && PendingIds(ts) != {}
    ensures exists id :: Ready(ts, id)
  {
    var id :| id in PendingIds(ts);
    var r := ChainEndsReady(ts, [id]);
  }

  // ----- draining -----

  /** Completing one task after another, each with its own clock reading. */
  datatype Completion = Completion(id: Id, now: int, completedNow: int)

  ghost function Complete(ts: Tasks, c: Completion): Tasks {
    if c.id !in ts then ts
    else ts[c.id := ts[c.id].(status := Completed, updatedAt := c.now, completedAt := Some(c.completedNow))]
  }

  /** Completing is set_status with the completed status. */
  lemma CompleteIsSetStatus(ts: Tasks, c: Completion)
    ensures Complete(ts, c) == Apply(ts, SetStatus(c.id, Completed, c.now, c.completedNow))
  {
  }

  ghost function AfterAll(ts: Tasks, cs: seq<Completion>): Tasks {
    if cs == [] then ts else Complete(AfterAll(ts, cs[..|cs| - 1]), cs[|cs| - 1])
  }

  /** Each task is ready at the moment it is completed. */
  ghost predicate IsDrain(ts: Tasks, cs: seq<Completion>) {
    cs == [] ||
    (IsDrain(ts, cs[..|cs| - 1]) && Ready(AfterAll(ts, cs[..|cs| - 1]), cs[|cs| - 1].id))
  }

  ghost predicate SameShape(ts: Tasks, ts': Tasks) {
    ts'.Keys == ts.Keys && forall id :: id in ts ==> ts'[id].dependencies == ts[id].dependencies
  }

  lemma SameShapeStaysDrainable(ts: Tasks, ts': Tasks)
    requires Drainable(ts) && SameShape(ts, ts')
    requires forall id :: id in ts' ==> ts'[id].status == Pending || ts'[id].status == Completed
    ensures Drainable(ts')
  {
    FewerEdgesStayAcyclic(DepsOf(ts'), DepsOf(ts));
    forall id | id in ts' ensures DependenciesStored(ts', id) {
      assert DependenciesStored(ts, id);
    }
  }

  ghost function CompletedIn(cs: seq<Completion>): set<Id> {
    set c | c in cs :: c.id
  }

  lemma CompletedInSnoc(cs: seq<Completion>)
    requires cs != []
    ensures CompletedIn(cs) == CompletedIn(cs[..|cs| - 1]) + {cs[|cs| - 1].id}
  {
    assert cs == cs[..|cs| - 1] + [cs[|cs| - 1]];
  }

  /** How the map has changed once those in `done` were completed. */
  ghost predicate Drained(ts: Tasks, done: set<Id>, ts': Tasks) {
    && SameShape(ts, ts')
    && done <= PendingIds(ts)
    && forall id :: id in ts ==> ts'[id].status == if id in done then Completed else ts[id].status
  }

  lemma CompleteOneMore(ts: Tasks, done: set<Id>, before: Tasks, c: Completion)
    requires Drained(ts, done, before) && Ready(before, c.id)
    ensures Drained(ts, done + {c.id}, Complete(before, c)) && c.id !in done
  {
    assert ts[c.id].status == Pending;
  }

  /** On any map at all a drain completes pending tasks, each once, and changes nothing else. */
  lemma {:induction false} DrainKeeps(ts: Tasks, cs: seq<Completion>)
    requires IsDrain(ts, cs)
    ensures Drained(ts, CompletedIn(cs), AfterAll(ts, cs))
    ensures |CompletedIn(cs)| == |cs|
  {
    if cs == [] {
      assert CompletedIn(cs) == {};
    } else {
      var front := cs[..|cs| - 1];
      DrainKeeps(ts, front);
      CompletedInSnoc(cs);
      CompleteOneMore(ts, CompletedIn(front), AfterAll(ts, front), cs[|cs| - 1]);
    }
  }

  lemma {:induction false} PrefixIsDrain(ts: Tasks, cs: seq<Completion>, n: nat)
    requires IsDrain(ts, cs) && n <= |cs|
    ensures IsDrain(ts, cs[..n])
    ensures n < |cs| ==> Ready(AfterAll(ts, cs[..n]), cs[n].id)
  {
    if n < |cs| - 1 {
      PrefixIsDrain(ts, cs[..|cs| - 1], n);
      assert cs[..|cs| - 1][..n] == cs[..n];
    } else if n == |cs| {
      assert cs[..n] == cs;
    }
  }

  /** No task is completed twice in a drain. */
  lemma DrainNeverRepeats(ts: Tasks, cs: seq<Completion>, i: nat, j: nat)
    requires IsDrain(ts, cs) && i < j < |cs|
    ensures cs[i].id != cs[j].id
  {
    PrefixIsDrain(ts, cs, j);
    DrainKeeps(ts, cs[..j]);
    assert cs[i] in cs[..j] && cs[i].id in CompletedIn(cs[..j]);
  }

  /** What is completed was pending, and the order is topological: every dependency of the i-th task was completed
      from the start or is among the first i. */
  lemma DrainIsTopological(ts: Tasks, cs: seq<Completion>, i: nat)
    requires IsDrain(ts, cs) && i < |cs|
    ensures cs[i].id in PendingIds(ts)
    ensures forall d :: d in ts[cs[i].id].dependencies ==>
              d in ts && (ts[d].status == Completed || exists j :: 0 <= j < i && cs[j].id == d)
  {
    PrefixIsDrain(ts, cs, i);
    DrainKeeps(ts, cs[..i]);
    var mid := AfterAll(ts, cs[..i]);
    assert Ready(mid, cs[i].id);
    forall d | d in ts[cs[i].id].dependencies && ts[d].status != Completed
      ensures exists j :: 0 <= j < i && cs[j].id == d
    {
      assert d in CompletedIn(cs[..i]);
      var c :| c in cs[..i] && c.id == d;
      var j :| 0 <= j < i && cs[j] == c;
    }
  }

  // ----- which tasks finish -----

  /** The ids in a list that are not stored and completed. */
  ghost function Unfinished(ts: Tasks, ids: seq<Id>): (r: seq<Id>)
    ensures forall d :: d in r <==> d in ids && !(d in ts && ts[d].status == Completed)
  {
    if ids == [] then []
    else
      var d := ids[0];
      (if d in ts && ts[d].status == Completed then [] else [d]) + Unfinished(ts, ids[1..])
  }

  /** What each pending task still waits for. */
  ghost function Waits(ts: Tasks): Graph {
    map id | id in ts && ts[id].status == Pending :: Unfinished(ts, ts[id].dependencies)
  }

  /** Completing ready tasks never completes this one: it is not stored, in progress, blocked, failed or cancelled. */
  ghost predicate Hopeless(ts: Tasks, id: Id) {
    id !in ts || (ts[id].status != Pending && ts[id].status != Completed)
  }

  ghost predicate OnCycle(g: Graph, id: Id) {
    exists p :: IsPath(g, p) && |p| >= 2 && p[0] == id && p[|p| - 1] == id
  }

  /** The task waits, directly or not, for a hopeless one or for itself going round in a cycle. */
  ghost predicate Starved(ts: Tasks, id: Id) {
    exists v :: Reaches(Waits(ts), id, v) && (Hopeless(ts, v) || OnCycle(Waits(ts), v))
  }

  ghost predicate Stuck(ts: Tasks) {
    forall id :: !Ready(ts, id)
  }

  /** Following what a completed task waited for leads to tasks completed before it. */
  lemma {:induction false} WaitingGoesBack(ts: Tasks, cs: seq<Completion>, i: nat, p: seq<Id>) returns (j: nat)
    requires IsDrain(ts, cs) && i < |cs| && IsPath(Waits(ts), p) && p[0] == cs[i].id
    ensures j <= i && cs[j].id == p[|p| - 1] && (|p| >= 2 ==> j < i)
    decreases |p|
  {
    if |p| == 1 {
      j := i;
    } else {
      assert Edge(Waits(ts), p[0], p[0 + 1]);
      DrainIsTopological(ts, cs, i);
      var k: nat :| k < i && cs[k].id == p[1];
      SubPath(Waits(ts), p, 1, |p|);
      j := WaitingGoesBack(ts, cs, k, p[1..|p|]);
    }
  }

  lemma CompletedWasNotStarved(ts: Tasks, cs: seq<Completion>, i: nat)
    requires IsDrain(ts, cs) && i < |cs|
    ensures !Starved(ts, cs[i].id)
  {
    forall v | Reaches(Waits(ts), cs[i].id, v) ensures !Hopeless(ts, v) && !OnCycle(Waits(ts), v) {
      var p :| PathBetween(Waits(ts), p, cs[i].id, v);
      var j := WaitingGoesBack(ts, cs, i, p);
      DrainIsTopological(ts, cs, j);
      forall q | IsPath(Waits(ts), q) && |q| >= 2 && q[0] == v ensures q[|q| - 1] != v {
        var k := WaitingGoesBack(ts, cs, j, q);
        DrainNeverRepeats(ts, cs, k, j);
      }
    }
  }

  /** In a map where nothing is ready, each pending task waits for something. */
  lemma StuckWaits(ts: Tasks, done: set<Id>, end: Tasks, u: Id) returns (d: Id)
    requires Drained(ts, done, end) && Stuck(end) && u in PendingIds(ts) && u !in done
    ensures Edge(Waits(ts), u, d) && d !in done && (Hopeless(ts, d) || d in PendingIds(ts))
  {
    assert !Ready(end, u);
    d :| d in ts[u].dependencies && !(d in end && end[d].status == Completed);
  }

  lemma CycleAt(g: Graph, p: seq<Id>, d: Id)
    requires IsPath(g, p) && d in p && Edge(g, p[|p| - 1], d)
    ensures OnCycle(g, d)
  {
    var k :| 0 <= k < |p| && p[k] == d;
    SubPath(g, p, k, |p|);
    var q := p[k..|p|] + [d];
    assert IsPath(g, q) && q[0] == d && q[|q| - 1] == d;
  }

  lemma StarvedBy(ts: Tasks, p: seq<Id>, v: Id)
    requires IsPath(Waits(ts), p) && Edge(Waits(ts), p[|p| - 1], v)
    requires Hopeless(ts, v) || OnCycle(Waits(ts), v)
    ensures Starved(ts, p[0])
  {
    assert PathBetween(Waits(ts), p + [v], p[0], v);
  }

  /** A path through tasks that are never completed must end at a hopeless one or close a cycle. */
  lemma {:induction false} StuckIsStarved(ts: Tasks, done: set<Id>, end: Tasks, p: seq<Id>)
    requires Drained(ts, done, end) && Stuck(end)
    requires IsPath(Waits(ts), p) && NoDuplicates(p)
    requires forall x :: x in p ==> x in PendingIds(ts) && x !in done
    ensures Starved(ts, p[0])
    decreases |ts.Keys| - |p|
  {
    DistinctFit(p, ts.Keys);
    var u := p[|p| - 1];
    assert u in p;
    var d := StuckWaits(ts, done, end, u);
    if Hopeless(ts, d) {
      StarvedBy(ts, p, d);
    } else if d in p {
      CycleAt(Waits(ts), p, d);
      StarvedBy(ts, p, d);
    } else {
      var longer := p + [d];
      assert IsPath(Waits(ts), longer);
      DistinctFit(longer, ts.Keys);
      StuckIsStarved(ts, done, end, longer);
    }
  }

  /** On any map, with missing ids, cycles and every status: when nothing is ready any more, the tasks completed are
      exactly the pending ones that do not wait, directly or not, for a hopeless task or for a cycle. */
  lemma StuckDrainIsExact(ts: Tasks, cs: seq<Completion>)
    requires IsDrain(ts, cs) && Stuck(AfterAll(ts, cs))
    ensures forall id :: id in CompletedIn(cs) <==> id in PendingIds(ts) && !Starved(ts, id)
  {
    DrainKeeps(ts, cs);
    forall id | id in PendingIds(ts) ensures id in CompletedIn(cs) <==> !Starved(ts, id) {
      if id in CompletedIn(cs) {
        var c :| c in cs && c.id == id;
        var i :| 0 <= i < |cs| && cs[i] == c;
        CompletedWasNotStarved(ts, cs, i);
      } else {
        StuckIsStarved(ts, CompletedIn(cs), AfterAll(ts, cs), [id]);
      }
    }
  }

  /** So the choice among ready tasks never matters: all drains that are stuck have completed the same tasks, in
      equally many rounds. */
  lemma StuckDrainsAgree(ts: Tasks, cs: seq<Completion>, cs': seq<Completion>)
    requires IsDrain(ts, cs) && Stuck(AfterAll(ts, cs)) && IsDrain(ts, cs') && Stuck(AfterAll(ts, cs'))
    ensures CompletedIn(cs) == CompletedIn(cs') && |cs| == |cs'|
  {
    StuckDrainIsExact(ts, cs);
    StuckDrainIsExact(ts, cs');
    DrainKeeps(ts, cs);
    DrainKeeps(ts, cs');
    assert CompletedIn(cs) == CompletedIn(cs');
  }

  /** And every drain can be continued until it is stuck. */
  lemma {:induction false} DrainCanEnd(ts: Tasks, cs: seq<Completion>) returns (all: seq<Completion>)
    requires IsDrain(ts, cs)
    ensures cs <= all && IsDrain(ts, all) && Stuck(AfterAll(ts, all))
    decreases |PendingIds(ts)| - |cs|
  {
    DrainKeeps(ts, cs);
    SubsetSize(CompletedIn(cs), PendingIds(ts));
    if Stuck(AfterAll(ts, cs)) {
      all := cs;
    } else {
      var id :| Ready(AfterAll(ts, cs), id);
      var longer := cs + [Completion(id, 0, 0)];
      assert longer[..|cs|] == cs;
      DrainKeeps(ts, longer);
      SubsetSize(CompletedIn(longer), PendingIds(ts));
      all := DrainCanEnd(ts, longer);
    }
  }

  // ----- when everything finishes -----

  lemma RestIsPending(ts: Tasks, done: set<Id>, end: Tasks)
    requires Drained(ts, done, end)
    ensures PendingIds(end) == PendingIds(ts) - done
  {
  }

  lemma DrainedStaysDrainable(ts: Tasks, done: set<Id>, end: Tasks)
    requires Drainable(ts) && Drained(ts, done, end)
    ensures Drainable(end)
  {
    SameShapeStaysDrainable(ts, end);
  }

  lemma DrainStaysDrainable(ts: Tasks, cs: seq<Completion>)
    requires Drainable(ts) && IsDrain(ts, cs)
    ensures Drainable(AfterAll(ts, cs))
    ensures |PendingIds(AfterAll(ts, cs))| == |PendingIds(ts)| - |cs|
  {
    DrainKeeps(ts, cs);
    DrainedStaysDrainable(ts, CompletedIn(cs), AfterAll(ts, cs));
    RestIsPending(ts, CompletedIn(cs), AfterAll(ts, cs));
    SizeOfRest(CompletedIn(cs), PendingIds(ts));
  }

  /** However the ready tasks are chosen, a drain is stuck only when nothing is pending, and it is then
      exactly as long as the number of tasks that were pending, with every task completed. */
  lemma DrainFinishes(ts: Tasks, cs: seq<Completion>)
    requires Drainable(ts) && IsDrain(ts, cs)
    ensures |cs| <= |PendingIds(ts)|
    ensures (forall id :: !Ready(AfterAll(ts, cs), id)) <==> |cs| == |PendingIds(ts)|
    ensures |cs| == |PendingIds(ts)| <==>
            forall id :: id in AfterAll(ts, cs) ==> AfterAll(ts, cs)[id].status == Completed
  {
    DrainStaysDrainable(ts, cs);
    var end := AfterAll(ts, cs);
    if PendingIds(end) != {} {
      SomethingIsReady(end);
      var id :| id in PendingIds(end);
      assert end[id].status == Pending;
    } else {
      assert forall id :: Ready(end, id) ==> id in PendingIds(end);
      assert forall id :: id in end && end[id].status == Pending ==> id in PendingIds(end);
    }
  }

  /** A drain that is not finished can always be continued by one more ready task. */
  lemma DrainExtends(ts: Tasks, cs: seq<Completion>, now: int) returns (c: Completion)
    requires Drainable(ts) && IsDrain(ts, cs) && |cs| < |PendingIds(ts)|
    ensures IsDrain(ts, cs + [c])
  {
    DrainStaysDrainable(ts, cs);
    SomethingIsReady(AfterAll(ts, cs));
    var id :| Ready(AfterAll(ts, cs), id);
    c := Completion(id, now, now);
    assert (cs + [c])[..|cs|] == cs;
  }
}
