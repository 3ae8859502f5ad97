/** Main.java `buildOrder(projects, dependencies)`: reject a missing or empty
    project list, populate a fresh graph, run Kahn's algorithm. Stated here in
    the caller's vocabulary of ids and pairs rather than arena indices. */
module Entry {
  import opened Common
  import opened Projects
  import opened Graphs
  import Kahn

  /** What the entry point returns: the projects in build order, or one of
      its three exceptions: the unknown-id error ("Project %s or/and %s does
      not exist", carrying `pair[0]` and `pair[1]`), "No valid build order"
      and "No projects provided". */
  datatype Outcome =
    | Built(projects: seq<Project>)
    | InvalidInput(dependency: string, project: string)
    | NoValidOrder
    | NoProjects

  /** `o` lists every project id once, and every pair's dependency comes
      before its dependent. */
  ghost predicate IsBuildOrder(ids: seq<string>, pairs: seq<Pair>, o: seq<string>) {
    && NoDuplicates(o)
    && (forall x :: x in o <==> x in ids)
    && (forall a, b :: 0 <= a < |o| && 0 <= b < |o| && (o[a], o[b]) in pairs ==> a < b)
  }

  /** `c` is a cycle of pairs: each element is a dependency of the next, the
      last of the first. A self-pair `(x, x)` is the cycle `[x]`. */
  ghost predicate IsCycle(pairs: seq<Pair>, c: seq<string>) {
    && |c| > 0
    && (forall k :: 0 <= k < |c| - 1 ==> (c[k], c[k + 1]) in pairs)
    && (c[|c| - 1], c[0]) in pairs
  }

  /** The ids of a list of projects. */
  function IdsOf(ps: seq<Project>): seq<string> {
    seq(|ps|, a requires 0 <= a < |ps| => ps[a].id)
  }

  /** The ids of the arena nodes at the given indices. */
  function NamesAt(arena: seq<Project>, out: seq<nat>): seq<string>
    requires forall a :: 0 <= a < |out| ==> out[a] < |arena|
  {
    seq(|out|, a requires 0 <= a < |out| => arena[out[a]].id)
  }

  /** The arena indices of the given ids. */
  function IndicesOf(g: Graph, o: seq<string>): (r: seq<nat>)
    requires Indexed(g) && forall x :: x in o ==> x in g.byId
    ensures |r| == |o|
    ensures forall a :: 0 <= a < |o| ==> r[a] < |g.nodes| && g.nodes[r[a]].id == o[a]
  {
    seq(|o|, a requires 0 <= a < |o| => g.byId[o[a]])
  }

  /** Distinct nodes of a populated graph carry distinct ids. */
  lemma IdsAreUnique(g: Graph, ids: seq<string>, i: nat, j: nat)
    requires HoldsProjects(g, ids)
    requires i < |g.nodes| && j < |g.nodes| && i != j
    ensures g.nodes[i].id != g.nodes[j].id
  {
  }

  /** Every id names some node of a populated graph. */
  lemma IdHasNode(g: Graph, ids: seq<string>, x: string)
    requires HoldsProjects(g, ids)
    ensures x in ids <==> exists i :: 0 <= i < |g.nodes| && g.nodes[i].id == x
  {
    if x in ids {
      assert g.nodes[g.byId[x]].id == x;
    }
  }

  lemma NamesAreUnique(g: Graph, ids: seq<string>, out: seq<nat>)
    requires HoldsProjects(g, ids)
    requires NoDuplicates(out) && forall a :: 0 <= a < |out| ==> out[a] < |g.nodes|
    ensures NoDuplicates(NamesAt(g.nodes, out))
  {
    var o := NamesAt(g.nodes, out);
    forall a, b | 0 <= a < b < |o|
      ensures o[a] != o[b]
    {
      IdsAreUnique(g, ids, out[a], out[b]);
    }
  }

  lemma NamesCoverIds(g: Graph, ids: seq<string>, out: seq<nat>)
    requires HoldsProjects(g, ids)
    requires Kahn.IsTopoOrder(g.nodes, out)
    ensures forall x :: x in NamesAt(g.nodes, out) <==> x in ids
  {
    var n := |g.nodes|;
    var o := NamesAt(g.nodes, out);
    IndicesBound(out, n);
    forall x
      ensures x in o <==> x in ids
    {
      IdHasNode(g, ids, x);
      if x in ids {
        var i :| 0 <= i < n && g.nodes[i].id == x;
        assert i in Range(n);
        var a :| 0 <= a < |out| && out[a] == i;
        assert o[a] == x;
      }
    }
  }

  lemma NamesRespectPairs(g: Graph, ids: seq<string>, pairs: seq<Pair>, out: seq<nat>)
    requires ParentsMatch(g.nodes, pairs)
    requires Kahn.IsTopoOrder(g.nodes, out)
    ensures var o := NamesAt(g.nodes, out);
      forall a, b :: 0 <= a < |o| && 0 <= b < |o| && (o[a], o[b]) in pairs ==> a < b
  {
    var o := NamesAt(g.nodes, out);
    forall a, b | 0 <= a < |o| && 0 <= b < |o| && (o[a], o[b]) in pairs
      ensures a < b
    {
      assert out[b] in g.nodes[out[a]].parents;
    }
  }

  /** A topological order of the arena names every project once, each pair's
      dependency before its dependent. */
  lemma TopoOrderNamesBuildOrder(g: Graph, ids: seq<string>, pairs: seq<Pair>, out: seq<nat>)
    requires Populates(g, ids, pairs)
    requires Kahn.IsTopoOrder(g.nodes, out)
    ensures IsBuildOrder(ids, pairs, NamesAt(g.nodes, out))
  {
    NamesAreUnique(g, ids, out);
    NamesCoverIds(g, ids, out);
    NamesRespectPairs(g, ids, pairs, out);
  }

  /** A build order of the ids gives a topological order of the arena. */
  lemma BuildOrderIndexesTopoOrder(g: Graph, ids: seq<string>, pairs: seq<Pair>, o: seq<string>)
    requires Populates(g, ids, pairs)
    requires IsBuildOrder(ids, pairs, o)
    ensures Kahn.Orderable(g.nodes)
  {
    var n := |g.nodes|;
    var idx := IndicesOf(g, o);
    CardElems(o);
    CardElems(Distinct(ids));
    assert Elems(o) == Elems(Distinct(ids));
    forall a, b | 0 <= a < b < |idx|
      ensures idx[a] != idx[b]
    {
    }
    forall a, b | 0 <= a < |idx| && 0 <= b < |idx| && idx[b] in g.nodes[idx[a]].parents
      ensures a < b
    {
      assert (o[a], o[b]) in pairs;
    }
    assert Kahn.IsTopoOrder(g.nodes, idx);
  }

  /** On a populated graph the arena has a topological order exactly when
      the ids have a build order. */
  lemma OrderableMeans(g: Graph, ids: seq<string>, pairs: seq<Pair>)
    requires Populates(g, ids, pairs)
    ensures Kahn.Orderable(g.nodes) <==> exists o :: IsBuildOrder(ids, pairs, o)
  {
    if Kahn.Orderable(g.nodes) {
      var out: seq<nat> :| Kahn.IsTopoOrder(g.nodes, out);
      TopoOrderNamesBuildOrder(g, ids, pairs, out);
    }
    if o :| IsBuildOrder(ids, pairs, o) {
      BuildOrderIndexesTopoOrder(g, ids, pairs, o);
    }
  }

  /** A build order lists as many projects as there are distinct ids. */
  lemma BuildOrderLength(ids: seq<string>, pairs: seq<Pair>, o: seq<string>)
    requires IsBuildOrder(ids, pairs, o)
    ensures |o| == |Distinct(ids)|
  {
    CardElems(o);
    CardElems(Distinct(ids));
    assert Elems(o) == Elems(Distinct(ids));
  }

  /** The position of an element in a sequence. */
  function IndexOf(o: seq<string>, x: string): (a: nat)
    requires x in o
    ensures a < |o| && o[a] == x
  {
    if o[0] == x then 0 else 1 + IndexOf(o[1..], x)
  }

  /** `x` occurs in `o` before `y`. */
  ghost predicate Before(o: seq<string>, x: string, y: string) {
    exists a, b :: 0 <= a < b < |o| && o[a] == x && o[b] == y
  }

  /** A list of every id once is a build order when each pair, taken one at
      a time, has its dependency first. */
  lemma PairsInOrder(ids: seq<string>, pairs: seq<Pair>, o: seq<string>)
    requires NoDuplicates(o) && forall x :: x in o <==> x in ids
    requires forall k :: 0 <= k < |pairs| ==> Before(o, pairs[k].0, pairs[k].1)
    ensures IsBuildOrder(ids, pairs, o)
  {
    forall a, b | 0 <= a < |o| && 0 <= b < |o| && (o[a], o[b]) in pairs
      ensures a < b
    {
      var k :| 0 <= k < |pairs| && pairs[k] == (o[a], o[b]);
      var a', b' :| 0 <= a' < b' < |o| && o[a'] == o[a] && o[b'] == o[b];
    }
  }

  /** Along the chain of pairs the positions in a build order rise. */
  lemma {:induction false} ChainRises(ids: seq<string>, pairs: seq<Pair>, o: seq<string>, c: seq<string>, k: nat)
    requires AllKnown(ids, pairs) && IsBuildOrder(ids, pairs, o)
    requires 0 < k < |c|
    requires forall m :: 0 <= m < |c| - 1 ==> (c[m], c[m + 1]) in pairs
    ensures c[0] in o && c[k] in o && IndexOf(o, c[0]) < IndexOf(o, c[k])
  {
    AllKnownMeans(ids, pairs);
    var p := (c[k - 1], c[k]);
    assert p in pairs;
    var i :| 0 <= i < |pairs| && pairs[i] == p;
    assert Known(ids, pairs[i]);
    if k > 1 {
      ChainRises(ids, pairs, o, c, k - 1);
    } else {
      assert c[0] in ids;
    }
  }

  /** A cycle among known ids, a self-pair included, rules out every build
      order. */
  lemma CycleHasNoBuildOrder(ids: seq<string>, pairs: seq<Pair>, c: seq<string>)
    requires AllKnown(ids, pairs) && IsCycle(pairs, c)
    ensures forall o :: !IsBuildOrder(ids, pairs, o)
  {
    forall o | IsBuildOrder(ids, pairs, o)
      ensures false
    {
      AllKnownMeans(ids, pairs);
      var i :| 0 <= i < |pairs| && pairs[i] == (c[|c| - 1], c[0]);
      assert Known(ids, pairs[i]);
      var last := IndexOf(o, c[|c| - 1]);
      var first := IndexOf(o, c[0]);
      if |c| > 1 {
        ChainRises(ids, pairs, o, c, |c| - 1);
      }
    }
  }

  /** Where a build order exists, no cycle does. */
  lemma NoCycles(ids: seq<string>, pairs: seq<Pair>, o: seq<string>)
    requires AllKnown(ids, pairs) && IsBuildOrder(ids, pairs, o)
    ensures forall c :: !IsCycle(pairs, c)
  {
    forall c
      ensures !IsCycle(pairs, c)
    {
      if IsCycle(pairs, c) {
        CycleHasNoBuildOrder(ids, pairs, c);
      }
    }
  }

  /** The nodes at the given indices, in that order. */
  function Arrange(arena: seq<Project>, out: seq<nat>): seq<Project>
    requires forall a :: 0 <= a < |out| ==> out[a] < |arena|
  {
    seq(|out|, a requires 0 <= a < |out| => arena[out[a]])
  }

  /** `graph.buildOrder()` on the graph `setProjects(ids, pairs)` built,
      read back in ids: succeeds exactly when no pair is repeated and some
      build order exists, returning every project once, dependencies first,
      each counter at zero. */
  method OrderPopulated(g: Graph, ids: seq<string>, pairs: seq<Pair>) returns (r: Outcome)
    requires Populates(g, ids, pairs) && WellFormed(g)
    requires Saturated(g.nodes) <==> NoDuplicates(pairs)
    ensures r.Built? || r.NoValidOrder?
    ensures r.Built? <==> NoDuplicates(pairs) && exists o :: IsBuildOrder(ids, pairs, o)
    ensures r.Built? ==> IsBuildOrder(ids, pairs, IdsOf(r.projects))
    ensures r.Built? ==> forall a :: 0 <= a < |r.projects| ==> r.projects[a].dependencies == 0
  {
    OrderableMeans(g, ids, pairs);
    var order, after := Kahn.BuildOrder(g);
    if order.NoValidOrder? {
      r := NoValidOrder;
    } else {
      var out := order.order;
      r := Built(Arrange(after, out));
      TopoOrderNamesBuildOrder(g, ids, pairs, out);
      assert IdsOf(r.projects) == NamesAt(g.nodes, out);
    }
  }

  /** Lines 25-28 of Main.buildOrder: populate a fresh graph and order it.
      Fails with the first pair naming an unknown id; otherwise succeeds
      exactly when no pair is repeated and some build order exists. A cycle
      always ends in failure. */
  method PopulateAndOrder(ids: seq<string>, pairs: seq<Pair>) returns (r: Outcome)
    ensures !r.NoProjects?
    ensures r.InvalidInput? <==> !AllKnown(ids, pairs)
    ensures r.InvalidInput? ==> (r.dependency, r.project) == pairs[FirstUnknown(ids, pairs)]
    ensures r.Built? <==>
      AllKnown(ids, pairs) && NoDuplicates(pairs) && exists o :: IsBuildOrder(ids, pairs, o)
    ensures r.Built? ==> IsBuildOrder(ids, pairs, IdsOf(r.projects))
    ensures r.Built? ==> forall a :: 0 <= a < |r.projects| ==> r.projects[a].dependencies == 0
    ensures r.Built? ==> forall c :: !IsCycle(pairs, c)
  {
    var population := SetProjects(EmptyGraph, ids, pairs);
    if population.UnknownProject? {
      r := InvalidInput(population.dependency, population.project);
    } else {
      r := OrderPopulated(population.graph, ids, pairs);
      if r.Built? {
        NoCycles(ids, pairs, IdsOf(r.projects));
      }
    }
  }

  /** Main.buildOrder on a missing (`None`) or present project list and the
      dependency pairs: "No projects provided" exactly when the list is
      missing or empty, otherwise the outcome of populating and ordering. */
  method BuildOrder(projects: Option<seq<string>>, pairs: seq<Pair>) returns (r: Outcome)
    ensures r.NoProjects? <==> projects.None? || |projects.value| == 0
    ensures r.InvalidInput? <==> projects.Some? && |projects.value| > 0 && !AllKnown(projects.value, pairs)
    ensures r.InvalidInput? ==>
      (r.dependency, r.project) == pairs[FirstUnknown(projects.value, pairs)]
    ensures r.Built? <==>
      && projects.Some? && |projects.value| > 0 && AllKnown(projects.value, pairs)
      && NoDuplicates(pairs)
      && exists o :: IsBuildOrder(projects.value, pairs, o)
    ensures r.Built? ==> IsBuildOrder(projects.value, pairs, IdsOf(r.projects))
    ensures r.Built? ==> |r.projects| == |Distinct(projects.value)|
    ensures r.Built? ==> forall a :: 0 <= a < |r.projects| ==> r.projects[a].dependencies == 0
    ensures r.Built? ==> forall c :: !IsCycle(pairs, c)
  {
    if projects.None? || |projects.value| == 0 {
      r := NoProjects;
    } else {
      r := PopulateAndOrder(projects.value, pairs);
      if r.Built? {
        BuildOrderLength(projects.value, pairs, IdsOf(r.projects));
      }
    }
  }
}
