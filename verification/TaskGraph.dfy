/** The dependency graph behind TaskManager: paths, reachability, acyclicity and the total edge count.
    An id may be mentioned as a dependency without being stored; only stored tasks have outgoing edges. */
module TaskGraph {
  import opened Identifiers
  import opened Sequences

  /** Each stored task id with its dependency list. */
  type Graph = map<Id, seq<Id>>

  ghost predicate Edge(g: Graph, u: Id, v: Id) {
    u in g && v in g[u]
  }

  ghost predicate IsPath(g: Graph, p: seq<Id>) {
    |p| > 0 && forall i :: 0 <= i < |p| - 1 ==> Edge(g, p[i], p[i + 1])
  }

  ghost predicate PathBetween(g: Graph, p: seq<Id>, u: Id, v: Id) {
    IsPath(g, p) && p[0] == u && p[|p| - 1] == v
  }

  /** v is reachable from u by zero or more dependency edges. */
  ghost predicate Reaches(g: Graph, u: Id, v: Id) {
    exists p :: PathBetween(g, p, u, v)
  }

  /** No path with at least one edge comes back to where it started. */
  ghost predicate Acyclic(g: Graph) {
    forall p :: IsPath(g, p) && |p| >= 2 ==> p[0] != p[|p| - 1]
  }

  // ----- paths -----

  lemma ReachesSelf(g: Graph, u: Id)
    ensures Reaches(g, u, u)
  {
    assert PathBetween(g, [u], u, u);
  }

  lemma ReachesExtend(g: Graph, u: Id, v: Id, w: Id)
    requires Reaches(g, u, v) && Edge(g, v, w)
    ensures Reaches(g, u, w)
  {
    var p :| PathBetween(g, p, u, v);
    assert PathBetween(g, p + [w], u, w);
  }

  lemma SubPath(g: Graph, p: seq<Id>, i: nat, j: nat)
    requires IsPath(g, p) && i < j <= |p|
    ensures IsPath(g, p[i..j])
  {
    var q := p[i..j];
    forall k | 0 <= k < |q| - 1 ensures Edge(g, q[k], q[k + 1]) {
      assert Edge(g, p[i + k], p[i + k + 1]);
    }
  }

  /** A set that is closed under edges cannot be left: the reason an exhausted search may answer "no". */
  lemma {:induction false} ClosedSetTraps(g: Graph, closed: set<Id>, p: seq<Id>)
    requires forall u, v :: u in closed && Edge(g, u, v) ==> v in closed
    requires IsPath(g, p) && p[0] in closed
    ensures p[|p| - 1] in closed
    decreases |p|
  {
    if |p| == 1 {
    } else {
      assert Edge(g, p[0], p[0 + 1]);
      SubPath(g, p, 1, |p|);
      ClosedSetTraps(g, closed, p[1..|p|]);
    }
  }

  lemma FewerEdgesStayAcyclic(h: Graph, g: Graph)
    requires forall u, v :: Edge(h, u, v) ==> Edge(g, u, v)
    requires Acyclic(g)
    ensures Acyclic(h)
  {
    forall p | IsPath(h, p) && |p| >= 2 ensures p[0] != p[|p| - 1] {
      assert IsPath(g, p);
    }
  }

  lemma AcyclicPathsAreSimple(g: Graph, p: seq<Id>)
    requires Acyclic(g) && IsPath(g, p)
    ensures NoDuplicates(p)
  {
    forall i, j | 0 <= i < j < |p| ensures p[i] != p[j] {
      SubPath(g, p, i, j + 1);
      var q := p[i..j + 1];
      assert q[0] != q[|q| - 1];
    }
  }

  lemma CycleThrough(g: Graph, id: Id, p: seq<Id>)
    requires IsPath(g, p) && Edge(g, id, p[0]) && p[|p| - 1] == id
    ensures !Acyclic(g)
  {
    var cycle := [id] + p;
    assert IsPath(g, cycle) && cycle[0] == cycle[|cycle| - 1];
  }

  lemma NoEdgesNoCycles()
    ensures Acyclic(map[])
  {
    assert forall u, v :: !Edge(map[], u, v);
    assert forall p :: |p| >= 2 && IsPath(map[], p) ==> Edge(map[], p[0], p[1]);
  }

  // ----- replacing one dependency list -----

  ghost predicate AgreeExceptAt(g: Graph, h: Graph, id: Id) {
    forall u, v :: u != id ==> (Edge(g, u, v) <==> Edge(h, u, v))
  }

  /** A shortest way into id never leaves id, so changing id's own edges does not matter to it. */
  lemma {:induction false} ReachingIdIgnoresItsEdges(g: Graph, h: Graph, p: seq<Id>, id: Id)
    requires AgreeExceptAt(g, h, id)
    requires IsPath(g, p) && p[|p| - 1] == id
    ensures Reaches(h, p[0], id)
    decreases |p|
  {
    if p[0] == id {
      ReachesSelf(h, id);
    } else {
      var tail := p[1..|p|];
      assert Edge(g, p[0], p[0 + 1]);
      SubPath(g, p, 1, |p|);
      ReachingIdIgnoresItsEdges(g, h, tail, id);
      var q :| PathBetween(h, q, p[1], id);
      assert PathBetween(h, [p[0]] + q, p[0], id);
    }
  }

  /** A cycle through an edge out of id, turned so that it starts at id. */
  lemma RotatedCycle(h: Graph, p: seq<Id>, i: nat) returns (q: seq<Id>)
    requires IsPath(h, p) && |p| >= 2 && p[0] == p[|p| - 1] && i < |p| - 1
    ensures IsPath(h, q) && |q| == |p| && q[0] == q[|q| - 1] == p[i]
  {
    q := p[i..] + p[1..i + 1];
    forall k | 0 <= k < |q| - 1 ensures Edge(h, q[k], q[k + 1]) {
      if k < |p| - 1 - i {
        assert Edge(h, p[i + k], p[i + k + 1]);
      } else {
        var m := k - (|p| - 1 - i);
        assert q[k] == p[m] && q[k + 1] == p[m + 1];
        assert Edge(h, p[m], p[m + 1]);
      }
    }
  }

  lemma PathAvoidingId(g: Graph, h: Graph, id: Id, p: seq<Id>)
    requires AgreeExceptAt(g, h, id) && IsPath(h, p) && forall j :: 0 <= j < |p| - 1 ==> p[j] != id
    ensures IsPath(g, p)
  {
  }

  /** Changing the edges of id can only close a cycle that leaves id. */
  lemma NewCyclePassesId(g: Graph, h: Graph, id: Id, p: seq<Id>) returns (i: nat)
    requires Acyclic(g) && AgreeExceptAt(g, h, id)
    requires IsPath(h, p) && |p| >= 2 && p[0] == p[|p| - 1]
    ensures i < |p| - 1 && p[i] == id
  {
    if forall j :: 0 <= j < |p| - 1 ==> p[j] != id {
      PathAvoidingId(g, h, id, p);
      assert false;
    }
    i :| i < |p| - 1 && p[i] == id;
  }

  /** In an acyclic graph, giving id the dependency list ds keeps the graph acyclic
      if and only if no new dependency already leads to id. */
  lemma OverwriteAcyclicIff(g: Graph, id: Id, ds: seq<Id>)
    requires Acyclic(g)
    ensures Acyclic(g[id := ds]) <==> forall d :: d in ds ==> !Reaches(g, d, id)
  {
    var h := g[id := ds];
    assert AgreeExceptAt(g, h, id);
    if d :| d in ds && Reaches(g, d, id) {
      var p :| PathBetween(g, p, d, id);
      ReachingIdIgnoresItsEdges(g, h, p, id);
      var q :| PathBetween(h, q, d, id);
      CycleThrough(h, id, q);
    }
    if !Acyclic(h) {
      var p :| IsPath(h, p) && |p| >= 2 && p[0] == p[|p| - 1];
      var i := NewCyclePassesId(g, h, id, p);
      var q := RotatedCycle(h, p, i);
      var tail := q[1..|q|];
      assert Edge(h, q[0], q[0 + 1]);
      SubPath(h, q, 1, |q|);
      ReachingIdIgnoresItsEdges(h, g, tail, id);
      assert q[1] in ds && Reaches(g, q[1], id);
    }
  }

  /** Appending one dependency to an acyclic graph closes a cycle exactly when it leads back to id. */
  lemma AppendAcyclicIff(g: Graph, id: Id, dep: Id)
    requires Acyclic(g) && id in g
    ensures Acyclic(g[id := g[id] + [dep]]) <==> !Reaches(g, dep, id)
  {
    OverwriteAcyclicIff(g, id, g[id] + [dep]);
    forall e | e in g[id] ensures !Reaches(g, e, id) {
      if Reaches(g, e, id) {
        var p :| PathBetween(g, p, e, id);
        CycleThrough(g, id, p);
      }
    }
    assert dep in g[id] + [dep];
  }

  // ----- total length of all dependency lists -----

  ghost function Pick(g: Graph): (k: Id)
    requires g != map[]
    ensures k in g
  {
    var k :| k in g;
    k
  }

  ghost function TotalDependencies(g: Graph): nat
    decreases |g|
  {
    if g == map[] then 0 else |g[Pick(g)]| + TotalDependencies(g - {Pick(g)})
  }

  lemma {:induction false} TotalWithout(g: Graph, k: Id)
    requires k in g
    ensures TotalDependencies(g) == |g[k]| + TotalDependencies(g - {k})
    decreases |g|
  {
    var j := Pick(g);
    if j == k {
    } else {
      TotalWithout(g - {j}, k);
      TotalWithout(g - {k}, j);
      assert g - {j} - {k} == g - {k} - {j};
    }
  }
}
