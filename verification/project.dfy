/** One project node (Project.java) and the arena the graph keeps them in.
    Java's object references become indices into a `seq<Project>`; the
    `parents` map, keyed by id and holding references, becomes the set of the
    dependents' indices (ids are unique within a graph, so nothing is lost). */
module Projects {
  import opened Common

  /** `dependencies` is the counter of not-yet-resolved dependency edges;
      `parents` holds the indices of the projects that depend on this one. */
  datatype Project = Project(id: string, dependencies: int, parents: set<nat>)

  /** `new Project(id)`: no dependencies, no dependents. */
  function NewProject(id: string): Project {
    Project(id, 0, {})
  }

  /** The dependencies of node `j` as the arena records them: every node
      whose parent set names `j`. */
  ghost function Deps(arena: seq<Project>, j: nat): set<nat> {
    set i | 0 <= i < |arena| && j in arena[i].parents
  }

  /** `arena[p].addDependency(arena[d])`: the dependent's counter goes up by
      one and the dependency learns about its new parent. When `p == d` both
      effects land on the same node. */
  function AddDependency(arena: seq<Project>, p: nat, d: nat): (r: seq<Project>)
    requires p < |arena| && d < |arena|
    ensures |r| == |arena|
    ensures r[p].dependencies == arena[p].dependencies + 1
    ensures r[d].parents == arena[d].parents + {p}
    ensures p != d ==> r[p].parents == arena[p].parents
    ensures p != d ==> r[d].dependencies == arena[d].dependencies
    ensures forall k :: 0 <= k < |r| ==> r[k].id == arena[k].id
    ensures forall k :: 0 <= k < |r| && k != p && k != d ==> r[k] == arena[k]
  {
    var counted := arena[p := arena[p].(dependencies := arena[p].dependencies + 1)];
    counted[d := counted[d].(parents := counted[d].parents + {p})]
  }

  /** Seen from the dependency side, adding an edge `d -> p` gives `p` the
      one extra dependency `d` and leaves every other node's dependencies
      alone. */
  lemma AddDependencyDeps(arena: seq<Project>, p: nat, d: nat)
    requires p < |arena| && d < |arena|
    ensures Deps(AddDependency(arena, p, d), p) == Deps(arena, p) + {d}
    ensures forall j: nat :: j != p ==> Deps(AddDependency(arena, p, d), j) == Deps(arena, j)
  {
    var r := AddDependency(arena, p, d);
    forall j: nat
      ensures Deps(r, j) == Deps(arena, j) + (if j == p then {d} else {})
    {
      forall i | 0 <= i < |arena|
        ensures i in Deps(r, j) <==> i in Deps(arena, j) + (if j == p then {d} else {})
      {
        if i == d {
          assert r[i].parents == arena[i].parents + {p};
        } else {
          assert r[i].parents == arena[i].parents;
        }
      }
    }
  }

  /** The same dependency added twice: the counter rises by two but the
      dependency's parent set gains a single entry, so the second edge can
      never be paid off by the ordering. */
  lemma AddDependencyTwice(arena: seq<Project>, p: nat, d: nat)
    requires p < |arena| && d < |arena|
    ensures var r := AddDependency(AddDependency(arena, p, d), p, d);
      && r[p].dependencies == arena[p].dependencies + 2
      && r[d].parents == arena[d].parents + {p}
      && Deps(r, p) == Deps(arena, p) + {d}
    ensures var r := AddDependency(AddDependency(arena, p, d), p, d);
      arena[p].dependencies >= |Deps(arena, p)| ==> r[p].dependencies > |Deps(r, p)|
  {
    AddDependencyDeps(arena, p, d);
    AddDependencyDeps(AddDependency(arena, p, d), p, d);
    CardSubset(Deps(arena, p) + {d} - {d}, Deps(arena, p));
  }
}
