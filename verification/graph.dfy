/** Graph population (Graph.java `setProjects`, `addProject`, `getProject`).
    A graph is the node arena, the `projects` map from id to arena index, and
    the `initialProjects` roots as a set of indices (a HashMap in the source,
    so no order among them is promised). */
module Graphs {
  import opened Common
  import opened Projects

  datatype Graph = Graph(nodes: seq<Project>, byId: map<string, nat>, initialProjects: set<nat>)

  /** A dependency pair: (dependency, dependent). */
  type Pair = (string, string)

  const EmptyGraph := Graph([], map[], {})

  /** The id map and the arena agree: every id names the node carrying it,
      and every node is reachable under its own id (so ids are unique). */
  ghost predicate Indexed(g: Graph) {
    && (forall id :: id in g.byId ==> g.byId[id] < |g.nodes| && g.nodes[g.byId[id]].id == id)
    && (forall i :: 0 <= i < |g.nodes| ==> g.nodes[i].id in g.byId && g.byId[g.nodes[i].id] == i)
  }

  /** What the ordering relies on: parents are nodes of the arena, no counter
      is below the number of distinct dependencies recorded for the node, and
      the roots are exactly the nodes whose counter is zero. */
  ghost predicate WellFormed(g: Graph) {
    ParentsInRange(g.nodes) && DepsBounded(g.nodes) && RootsAreZero(g)
  }

  ghost predicate ParentsInRange(arena: seq<Project>) {
    forall i, j :: 0 <= i < |arena| && j in arena[i].parents ==> j < |arena|
  }

  ghost predicate DepsBounded(arena: seq<Project>) {
    forall j :: 0 <= j < |arena| ==> |Deps(arena, j)| <= arena[j].dependencies
  }

  ghost predicate RootsAreZero(g: Graph) {
    forall j: nat :: j in g.initialProjects <==> j < |g.nodes| && g.nodes[j].dependencies == 0
  }

  /** Every counter equals the number of distinct dependencies: no edge was
      recorded twice. */
  ghost predicate Saturated(arena: seq<Project>) {
    forall j :: 0 <= j < |arena| ==> arena[j].dependencies == |Deps(arena, j)|
  }

  /** Both ids of the pair are among the project ids. */
  predicate Known(ids: seq<string>, p: Pair) {
    p.0 in ids && p.1 in ids
  }

  /** Every pair names two known ids; defined pair by pair from the end,
      the order in which the population loop learns it. */
  predicate AllKnown(ids: seq<string>, pairs: seq<Pair>) {
    |pairs| == 0 || (AllKnown(ids, pairs[..|pairs| - 1]) && Known(ids, pairs[|pairs| - 1]))
  }

  lemma {:induction false} AllKnownMeans(ids: seq<string>, pairs: seq<Pair>)
    ensures AllKnown(ids, pairs) <==> forall k :: 0 <= k < |pairs| ==> Known(ids, pairs[k])
  {
    if |pairs| > 0 {
      var init := pairs[..|pairs| - 1];
      AllKnownMeans(ids, init);
      assert forall k :: 0 <= k < |init| ==> init[k] == pairs[k];
    }
  }

  /** The position of the first pair naming an unknown id. */
  function FirstUnknown(ids: seq<string>, pairs: seq<Pair>): (k: nat)
    requires !AllKnown(ids, pairs)
    ensures k < |pairs| && !Known(ids, pairs[k]) && AllKnown(ids, pairs[..k])
  {
    var init := pairs[..|pairs| - 1];
    if AllKnown(ids, init) then
      assert pairs[..|pairs| - 1] == init;
      |pairs| - 1
    else
      var k := FirstUnknown(ids, init);
      assert init[..k] == pairs[..k];
      k
  }

  lemma AllKnownStep(ids: seq<string>, pairs: seq<Pair>, k: nat)
    requires k < |pairs| && AllKnown(ids, pairs[..k]) && Known(ids, pairs[k])
    ensures AllKnown(ids, pairs[..k + 1])
  {
    assert pairs[..k + 1][..k] == pairs[..k];
  }

  /** The first unknown pair is the one after the known prefix. */
  lemma FirstUnknownAt(ids: seq<string>, pairs: seq<Pair>, k: nat)
    requires k < |pairs| && AllKnown(ids, pairs[..k]) && !Known(ids, pairs[k])
    ensures !AllKnown(ids, pairs) && FirstUnknown(ids, pairs) == k
  {
    AllKnownMeans(ids, pairs);
    var f := FirstUnknown(ids, pairs);
    AllKnownMeans(ids, pairs[..k]);
    AllKnownMeans(ids, pairs[..f]);
    assert forall j :: 0 <= j < k ==> pairs[..k][j] == pairs[j];
    assert forall j :: 0 <= j < f ==> pairs[..f][j] == pairs[j];
  }

  /** How many pairs, repeats included, name `id` as the dependent. */
  function DependencyCount(pairs: seq<Pair>, id: string): nat {
    if |pairs| == 0 then 0
    else DependencyCount(pairs[..|pairs| - 1], id) + (if pairs[|pairs| - 1].1 == id then 1 else 0)
  }

  /** The dependents named by the pairs, in order, repeats kept. */
  function Dependents(pairs: seq<Pair>): seq<string> {
    seq(|pairs|, k requires 0 <= k < |pairs| => pairs[k].1)
  }

  /** The counter of a node is the multiplicity of its id among the
      dependents of the pairs. */
  lemma {:induction false} DependencyCountIsMultiplicity(pairs: seq<Pair>, id: string)
    ensures DependencyCount(pairs, id) == multiset(Dependents(pairs))[id]
  {
    if |pairs| > 0 {
      var init := pairs[..|pairs| - 1];
      DependencyCountIsMultiplicity(init, id);
      assert Dependents(pairs) == Dependents(init) + [pairs[|pairs| - 1].1];
    }
  }

  /** The graph `setProjects(ids, pairs)` builds: one node per distinct id in
      first-occurrence order, the id map over exactly those ids, each counter
      the number of pairs naming the node as dependent, each parent set the
      dependents of the node's pairs, and as roots the nodes no pair names as
      dependent. */
  ghost predicate Populates(g: Graph, ids: seq<string>, pairs: seq<Pair>) {
    && HoldsProjects(g, ids)
    && CountsMatch(g.nodes, pairs)
    && ParentsMatch(g.nodes, pairs)
    && RootsMatch(g, pairs)
  }

  /** One node per distinct id, in first-occurrence order, each reachable
      under its id and under no other. */
  ghost predicate HoldsProjects(g: Graph, ids: seq<string>) {
    && Indexed(g)
    && |g.nodes| == |Distinct(ids)|
    && (forall i :: 0 <= i < |g.nodes| ==> g.nodes[i].id == Distinct(ids)[i])
    && (forall id :: id in g.byId <==> id in ids)
  }

  /** Each counter is the number of pairs, repeats included, naming the node
      as the dependent. */
  ghost predicate CountsMatch(arena: seq<Project>, pairs: seq<Pair>) {
    forall i :: 0 <= i < |arena| ==> arena[i].dependencies == DependencyCount(pairs, arena[i].id)
  }

  /** Each parent set is the set of dependents of the node's pairs. */
  ghost predicate ParentsMatch(arena: seq<Project>, pairs: seq<Pair>) {
    && ParentsInRange(arena)
    && (forall i, j :: 0 <= i < |arena| && 0 <= j < |arena| ==>
          (j in arena[i].parents <==> (arena[i].id, arena[j].id) in pairs))
  }

  /** The roots are the nodes that no pair names as the dependent. */
  ghost predicate RootsMatch(g: Graph, pairs: seq<Pair>) {
    forall i: nat :: i in g.initialProjects <==>
      i < |g.nodes| && forall p :: p in pairs ==> p.1 != g.nodes[i].id
  }

  /** `getProject(id)`: the node registered under `id`, if any. */
  function GetProject(g: Graph, id: string): (r: Option<nat>)
    requires Indexed(g)
    ensures r.Some? <==> id in g.byId
    ensures r.Some? ==> r.value < |g.nodes| && g.nodes[r.value].id == id
  {
    if id in g.byId then Some(g.byId[id]) else None
  }

  /** Lines 25-28 of `setProjects`: a fresh `Project(id)` goes into both the
      project map and the roots through `putIfAbsent`, so an id seen before
      keeps its first node and nothing changes. */
  function AddProject(g: Graph, id: string): (r: Graph)
    requires Indexed(g) && WellFormed(g)
    requires Blank(g.nodes)
    ensures Indexed(r) && WellFormed(r) && Blank(r.nodes)
    ensures forall x :: x in r.byId <==> x in g.byId || x == id
    ensures forall x :: x in g.byId ==> r.byId[x] == g.byId[x]
    ensures id in g.byId ==> r == g
    ensures id !in g.byId ==> r.nodes == g.nodes + [NewProject(id)]
  {
    if id in g.byId then g
    else
      var n := |g.nodes|;
      var r := Graph(g.nodes + [NewProject(id)], g.byId[id := n], g.initialProjects + {n});
      NoParentsNoDeps(r.nodes);
      r
  }

  lemma NoParentsNoDeps(arena: seq<Project>)
    requires forall i :: 0 <= i < |arena| ==> arena[i].parents == {}
    ensures forall j :: 0 <= j < |arena| ==> Deps(arena, j) == {}
  {
  }

  /** Outcome of `setProjects`: the populated graph, or the exception raised
      for a pair naming an unknown id, together with the graph as the
      exception leaves it (the pairs before the offending one applied). */
  datatype Population =
    | Populated(graph: Graph)
    | UnknownProject(dependency: string, project: string, partial: Graph)

  /** Every node as `new Project(id)` left it. */
  ghost predicate Blank(arena: seq<Project>) {
    forall k :: 0 <= k < |arena| ==> arena[k].dependencies == 0 && arena[k].parents == {}
  }

  /** Adding one more id extends the population by that id. */
  lemma AddProjectStep(g: Graph, seen: seq<string>, id: string)
    requires HoldsProjects(g, seen) && WellFormed(g) && Blank(g.nodes)
    ensures HoldsProjects(AddProject(g, id), seen + [id])
    ensures WellFormed(AddProject(g, id)) && Blank(AddProject(g, id).nodes)
  {
    var s := seen + [id];
    assert s[..|s| - 1] == seen;
    assert Distinct(s) == if id in Distinct(seen) then Distinct(seen) else Distinct(seen) + [id];
  }

  /** Blank nodes for every id make the population by no pairs. */
  lemma BlankPopulation(g: Graph, ids: seq<string>)
    requires HoldsProjects(g, ids) && WellFormed(g) && Blank(g.nodes)
    ensures Populates(g, ids, []) && Saturated(g.nodes)
  {
    NoParentsNoDeps(g.nodes);
  }

  /** Phase one of `setProjects`: clear, then add every id. */
  method AddAllProjects(ids: seq<string>) returns (g: Graph)
    ensures Populates(g, ids, [])
    ensures WellFormed(g) && Saturated(g.nodes)
  {
    g := EmptyGraph;
    var i := 0;
    ghost var seen: seq<string> := [];
    while i < |ids|
      invariant i <= |ids| && seen == ids[..i]
      invariant HoldsProjects(g, seen) && WellFormed(g) && Blank(g.nodes)
    {
      AddProjectStep(g, seen, ids[i]);
      PrefixStep(ids, i);
      g := AddProject(g, ids[i]);
      seen := seen + [ids[i]];
      i := i + 1;
    }
    assert seen == ids;
    BlankPopulation(g, ids);
  }

  /** Records one pair whose ids are both known: the dependent leaves the
      roots and `addDependency` adds the edge. Seen through `Deps`, the
      dependent gains exactly the dependency; ids, the other counters and
      every other node's dependencies stay as they were. */
  function ApplyPair(g: Graph, q: nat, d: nat): (r: Graph)
    requires q < |g.nodes| && d < |g.nodes|
    ensures |r.nodes| == |g.nodes| && r.byId == g.byId
    ensures forall j :: j in r.initialProjects <==> j in g.initialProjects && j != q
    ensures r.nodes[q].dependencies == g.nodes[q].dependencies + 1
    ensures forall j :: 0 <= j < |r.nodes| ==> r.nodes[j].id == g.nodes[j].id
    ensures forall j :: 0 <= j < |r.nodes| && j != q ==> r.nodes[j].dependencies == g.nodes[j].dependencies
    ensures Deps(r.nodes, q) == Deps(g.nodes, q) + {d}
    ensures forall j: nat :: j != q ==> Deps(r.nodes, j) == Deps(g.nodes, j)
  {
    AddDependencyDeps(g.nodes, q, d);
    Graph(AddDependency(g.nodes, q, d), g.byId, g.initialProjects - {q})
  }

  /** Counters after one more pair: only the dependent's moves, by one. */
  lemma CountsStep(g: Graph, pairs: seq<Pair>, p: Pair, q: nat, d: nat)
    requires Indexed(g) && CountsMatch(g.nodes, pairs)
    requires q < |g.nodes| && d < |g.nodes| && g.nodes[q].id == p.1
    ensures CountsMatch(ApplyPair(g, q, d).nodes, pairs + [p])
  {
    var r := ApplyPair(g, q, d);
    var ps := pairs + [p];
    assert ps[..|ps| - 1] == pairs;
    forall i | 0 <= i < |r.nodes|
      ensures r.nodes[i].dependencies == DependencyCount(ps, r.nodes[i].id)
    {
      if i != q {
        assert g.nodes[i].id != p.1;
      }
    }
  }

  /** Parent sets after one more pair: only the dependency's grows, by the
      dependent. */
  lemma ParentsStep(g: Graph, pairs: seq<Pair>, p: Pair, q: nat, d: nat)
    requires Indexed(g) && ParentsMatch(g.nodes, pairs)
    requires q < |g.nodes| && d < |g.nodes| && g.nodes[q].id == p.1 && g.nodes[d].id == p.0
    ensures ParentsMatch(ApplyPair(g, q, d).nodes, pairs + [p])
  {
    var r := ApplyPair(g, q, d);
    var ps := pairs + [p];
    forall i, j | 0 <= i < |r.nodes| && 0 <= j < |r.nodes|
      ensures j in r.nodes[i].parents <==> (r.nodes[i].id, r.nodes[j].id) in ps
    {
      ParentStep(g, pairs, p, q, d, i, j);
    }
  }

  lemma ParentStep(g: Graph, pairs: seq<Pair>, p: Pair, q: nat, d: nat, i: nat, j: nat)
    requires Indexed(g) && ParentsMatch(g.nodes, pairs)
    requires q < |g.nodes| && d < |g.nodes| && g.nodes[q].id == p.1 && g.nodes[d].id == p.0
    requires i < |g.nodes| && j < |g.nodes|
    ensures var r := ApplyPair(g, q, d).nodes;
      j in r[i].parents <==> (r[i].id, r[j].id) in pairs + [p]
  {
    if (g.nodes[i].id, g.nodes[j].id) == p {
      assert i == d && j == q;
    }
  }

  /** Roots after one more pair: the dependent is gone, the rest stay. */
  lemma RootsStep(g: Graph, pairs: seq<Pair>, p: Pair, q: nat, d: nat)
    requires Indexed(g) && RootsMatch(g, pairs)
    requires q < |g.nodes| && d < |g.nodes| && g.nodes[q].id == p.1
    ensures RootsMatch(ApplyPair(g, q, d), pairs + [p])
  {
    var r := ApplyPair(g, q, d);
    var ps := pairs + [p];
    forall i: nat
      ensures i in r.initialProjects <==> i < |r.nodes| && forall x :: x in ps ==> x.1 != r.nodes[i].id
    {
      if i < |r.nodes| && i != q {
        assert r.nodes[i].id != p.1;
      }
    }
  }

  /** One more edge keeps what the ordering relies on. */
  lemma WellFormedStep(g: Graph, q: nat, d: nat)
    requires WellFormed(g)
    requires q < |g.nodes| && d < |g.nodes|
    ensures WellFormed(ApplyPair(g, q, d))
  {
    var r := ApplyPair(g, q, d);
    assert ParentsInRange(r.nodes);
    DepsBoundedStep(g.nodes, q, d);
    assert RootsAreZero(r);
  }

  lemma DepsBoundedStep(arena: seq<Project>, q: nat, d: nat)
    requires DepsBounded(arena)
    requires q < |arena| && d < |arena|
    ensures DepsBounded(AddDependency(arena, q, d))
  {
    var r := AddDependency(arena, q, d);
    AddDependencyDeps(arena, q, d);
    CardSubset(Deps(arena, q) + {d} - {d}, Deps(arena, q));
    forall j | 0 <= j < |r|
      ensures |Deps(r, j)| <= r[j].dependencies
    {
      if j != q {
        assert Deps(r, j) == Deps(arena, j);
      }
    }
  }

  /** One more edge keeps every counter equal to its number of distinct
      dependencies exactly when the edge is new. */
  lemma SaturationStep(g: Graph, q: nat, d: nat)
    requires WellFormed(g)
    requires q < |g.nodes| && d < |g.nodes|
    ensures Saturated(ApplyPair(g, q, d).nodes) <==> Saturated(g.nodes) && d !in Deps(g.nodes, q)
  {
    var r := ApplyPair(g, q, d);
    AddDependencyDeps(g.nodes, q, d);
    if d in Deps(g.nodes, q) {
      assert Deps(r.nodes, q) == Deps(g.nodes, q);
      assert r.nodes[q].dependencies != |Deps(r.nodes, q)|;
    } else {
      assert |Deps(r.nodes, q)| == |Deps(g.nodes, q)| + 1;
      if Saturated(g.nodes) {
        forall j | 0 <= j < |r.nodes|
          ensures r.nodes[j].dependencies == |Deps(r.nodes, j)|
        {
          if j != q {
            assert Deps(r.nodes, j) == Deps(g.nodes, j);
          }
        }
      } else {
        var j :| 0 <= j < |g.nodes| && g.nodes[j].dependencies != |Deps(g.nodes, j)|;
        if j != q {
          assert Deps(r.nodes, j) == Deps(g.nodes, j);
        }
        assert r.nodes[j].dependencies != |Deps(r.nodes, j)|;
      }
    }
  }

  /** No pair occurs twice; defined pair by pair from the end, like
      `AllKnown`. */
  predicate NoRepeatedPairs(pairs: seq<Pair>) {
    |pairs| == 0 || (NoRepeatedPairs(pairs[..|pairs| - 1]) && pairs[|pairs| - 1] !in pairs[..|pairs| - 1])
  }

  lemma {:induction false} NoRepeatedPairsMeans(pairs: seq<Pair>)
    ensures NoRepeatedPairs(pairs) <==> NoDuplicates(pairs)
  {
    if |pairs| > 0 {
      var init, last := pairs[..|pairs| - 1], pairs[|pairs| - 1];
      NoRepeatedPairsMeans(init);
      assert forall k :: 0 <= k < |init| ==> init[k] == pairs[k];
      if last in init {
        var k :| 0 <= k < |init| && init[k] == last;
        assert pairs[k] == pairs[|pairs| - 1];
      }
    }
  }

  /** One more pair keeps the population description. */
  lemma PopulatesStep(g: Graph, ids: seq<string>, pairs: seq<Pair>, p: Pair, q: nat, d: nat)
    requires Populates(g, ids, pairs)
    requires q < |g.nodes| && d < |g.nodes| && g.nodes[q].id == p.1 && g.nodes[d].id == p.0
    ensures Populates(ApplyPair(g, q, d), ids, pairs + [p])
  {
    HoldsStep(g, ids, q, d);
    CountsStep(g, pairs, p, q, d);
    ParentsStep(g, pairs, p, q, d);
    RootsStep(g, pairs, p, q, d);
  }

  lemma HoldsStep(g: Graph, ids: seq<string>, q: nat, d: nat)
    requires HoldsProjects(g, ids)
    requires q < |g.nodes| && d < |g.nodes|
    ensures HoldsProjects(ApplyPair(g, q, d), ids)
  {
  }

  /** What holds once the pairs `done` went through the dependency loop of
      `setProjects`. */
  ghost predicate Progress(g: Graph, ids: seq<string>, done: seq<Pair>) {
    && AllKnown(ids, done)
    && Populates(g, ids, done) && WellFormed(g)
    && (Saturated(g.nodes) <==> NoRepeatedPairs(done))
  }

  /** One step of the dependency loop keeps the population description, the
      well-formedness the ordering needs, and the correspondence between
      repeated pairs and over-counted nodes. */
  lemma ProgressStep(g: Graph, ids: seq<string>, done: seq<Pair>, p: Pair, q: nat, d: nat)
    requires Progress(g, ids, done)
    requires q < |g.nodes| && d < |g.nodes| && g.nodes[q].id == p.1 && g.nodes[d].id == p.0
    ensures Progress(ApplyPair(g, q, d), ids, done + [p])
  {
    var ps := done + [p];
    assert ps[..|ps| - 1] == done;
    PopulatesStep(g, ids, done, p, q, d);
    WellFormedStep(g, q, d);
    SaturationStep(g, q, d);
    RepeatedEdge(g, done, p, q, d);
    NodesAreKnown(g, ids, p, q, d);
  }

  /** The edge of a pair is already recorded exactly when the pair was seen. */
  lemma RepeatedEdge(g: Graph, done: seq<Pair>, p: Pair, q: nat, d: nat)
    requires ParentsMatch(g.nodes, done)
    requires q < |g.nodes| && d < |g.nodes| && g.nodes[q].id == p.1 && g.nodes[d].id == p.0
    ensures d in Deps(g.nodes, q) <==> p in done
  {
  }

  lemma NodesAreKnown(g: Graph, ids: seq<string>, p: Pair, q: nat, d: nat)
    requires HoldsProjects(g, ids)
    requires q < |g.nodes| && d < |g.nodes| && g.nodes[q].id == p.1 && g.nodes[d].id == p.0
    ensures Known(ids, p)
  {
    assert Distinct(ids)[d] in Distinct(ids) && Distinct(ids)[q] in Distinct(ids);
  }

  /** One iteration of the dependency loop, for a pair whose two nodes were
      found: the population description moves on by that pair. */
  method RecordPair(g: Graph, ghost ids: seq<string>, ghost done: seq<Pair>, ghost p: Pair, q: nat, d: nat)
    returns (r: Graph)
    requires Progress(g, ids, done)
    requires q < |g.nodes| && d < |g.nodes| && g.nodes[q].id == p.1 && g.nodes[d].id == p.0
    ensures Progress(r, ids, done + [p])
  {
    ProgressStep(g, ids, done, p, q, d);
    r := ApplyPair(g, q, d);
  }

  /** The dependency loop of `setProjects`: pairs are recorded in order
      until one names an unknown id, which ends the loop with the graph as
      the earlier pairs left it. */
  method AddAllPairs(g0: Graph, ghost ids: seq<string>, pairs: seq<Pair>) returns (r: Population)
    requires Progress(g0, ids, [])
    ensures r.Populated? <==> AllKnown(ids, pairs)
    ensures r.Populated? ==> Progress(r.graph, ids, pairs)
    ensures r.UnknownProject? ==>
      var k := FirstUnknown(ids, pairs);
      (r.dependency, r.project) == pairs[k] && Progress(r.partial, ids, pairs[..k])
  {
    var g := g0;
    var k := 0;
    ghost var done: seq<Pair> := [];
    while k < |pairs|
      invariant k <= |pairs| && done == pairs[..k]
      invariant Progress(g, ids, done)
    {
      var pair := pairs[k];
      var project := GetProject(g, pair.1);
      var dependency := GetProject(g, pair.0);
      if project.None? || dependency.None? {
        FirstUnknownAt(ids, pairs, k);
        return UnknownProject(pair.0, pair.1, g);
      }
      g := RecordPair(g, ids, done, pair, project.value, dependency.value);
      PrefixStep(pairs, k);
      done := pairs[..k + 1];
      k := k + 1;
    }
    assert done == pairs;
    r := Populated(g);
  }

  /** `setProjects(ids, pairs)` on a graph that may hold an earlier
      population. The earlier contents are cleared first, so the result does
      not depend on `previous` at all. */
  method SetProjects(previous: Graph, ids: seq<string>, pairs: seq<Pair>) returns (r: Population)
    ensures r.Populated? <==> AllKnown(ids, pairs)
    ensures r.Populated? ==> Populates(r.graph, ids, pairs) && WellFormed(r.graph)
    ensures r.Populated? ==> (Saturated(r.graph.nodes) <==> NoDuplicates(pairs))
    ensures r.UnknownProject? ==>
      var k := FirstUnknown(ids, pairs);
      && (r.dependency, r.project) == pairs[k]
      && Populates(r.partial, ids, pairs[..k]) && WellFormed(r.partial)
  {
    var g := AddAllProjects(ids);
    r := AddAllPairs(g, ids, pairs);
    NoRepeatedPairsMeans(pairs);
  }

  lemma SameNodes(g1: Graph, g2: Graph, ids: seq<string>, pairs: seq<Pair>)
    requires HoldsProjects(g1, ids) && HoldsProjects(g2, ids)
    requires CountsMatch(g1.nodes, pairs) && CountsMatch(g2.nodes, pairs)
    requires ParentsMatch(g1.nodes, pairs) && ParentsMatch(g2.nodes, pairs)
    ensures g1.nodes == g2.nodes
  {
    forall i | 0 <= i < |g1.nodes|
      ensures g1.nodes[i] == g2.nodes[i]
    {
      SameNode(g1, g2, ids, pairs, i);
    }
  }

  lemma SameNode(g1: Graph, g2: Graph, ids: seq<string>, pairs: seq<Pair>, i: nat)
    requires HoldsProjects(g1, ids) && HoldsProjects(g2, ids)
    requires CountsMatch(g1.nodes, pairs) && CountsMatch(g2.nodes, pairs)
    requires ParentsMatch(g1.nodes, pairs) && ParentsMatch(g2.nodes, pairs)
    requires i < |g1.nodes|
    ensures g1.nodes[i] == g2.nodes[i]
  {
    var n := |g1.nodes|;
    assert g1.nodes[i].id == g2.nodes[i].id;
    forall j: nat
      ensures j in g1.nodes[i].parents <==> j in g2.nodes[i].parents
    {
      if j < n {
        assert g1.nodes[j].id == g2.nodes[j].id;
      }
    }
  }

  /** The population description pins the graph down completely: two graphs
      populated from the same input are equal, which is why repopulating a
      graph leaves nothing of its earlier contents behind. */
  lemma PopulationIsUnique(g1: Graph, g2: Graph, ids: seq<string>, pairs: seq<Pair>)
    requires Populates(g1, ids, pairs) && Populates(g2, ids, pairs)
    ensures g1 == g2
  {
    SameNodes(g1, g2, ids, pairs);
    forall id | id in g1.byId
      ensures g1.byId[id] == g2.byId[id]
    {
      var a, b := g1.byId[id], g2.byId[id];
      assert Distinct(ids)[a] == id == Distinct(ids)[b];
    }
    assert g1.byId == g2.byId;
    assert g1.initialProjects == g2.initialProjects;
  }
}
