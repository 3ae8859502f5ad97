# BuildOrder in Dafny

A model of the BuildOrder repository: given a list of project ids and a list
of `(dependency, dependent)` pairs, build a dependency graph and order the
projects with Kahn's topological sort, or fail.

- `common.dfy` (`Common`): `Option` for Java's nullable references; `Distinct`, first-occurrence de-duplication as repeated `putIfAbsent` does it; cardinality facts.
- `project.dfy` (`Projects`): `Project` (id, dependency counter, parent set) and `addDependency`. Java's object references become indices into an arena `seq<Project>`. The `parents` HashMap becomes the set of the dependents' indices.
- `graph.dfy` (`Graphs`): `Graph` holds the arena, the `projects` map from id to index, and the `initialProjects` roots as a set of indices. It models `addProject`, `getProject` and `setProjects`.
  - `Populates` describes the populated graph independently of the loop:
    - one node per distinct id;
    - each counter is the number of pairs naming the node as dependent, repeats included;
    - each parent set holds the dependents of the node's pairs;
    - the roots are the nodes no pair names as dependent.
  - An unknown id yields `UnknownProject`. It carries both ids of the offending pair and the graph as the exception leaves it.
- `kahn.dfy` (`Kahn`): `buildOrder`, Kahn's loop with its invariant `KahnState`. It returns the order as node indices, or `NoValidOrder`, together with the nodes with their final counters. Both HashMap iterations of the source are arbitrary choices (`:|`): the roots seeding the queue and the parents of a resolved node.
- `entry.dfy` (`Entry`): `Main.buildOrder`, with its results stated in ids and pairs.
  - `IsBuildOrder(ids, pairs, o)`: every id once, each pair's dependency first.
  - `IsCycle(pairs, c)`: a cycle through the pairs. A self-pair is a cycle of length one.
- `scenarios.dfy` (`Scenarios`): the cases of MainTest.java plus a few more. Each is stated as the outcome the entry point must produce under any hash-map order.

What the proofs establish, in the source's terms:

- `setProjects` populates exactly the graph `Populates` describes. A graph populated from the same input is unique, so nothing from an earlier population survives.
- An unknown id is reported for the first offending pair. All pairs before it have already been applied.
- Kahn's loop appends only nodes whose counter is zero, each at most once and after all of its recorded dependencies. It runs at most `|projects|` iterations.
- `buildOrder` succeeds exactly when:
  - no node's counter exceeds its number of distinct dependencies, that is, no pair was given twice; and
  - some order respects every pair.

  On success the result lists every project once, each pair's dependency first, with every counter at zero.
- Any cycle, a self-pair included, rules out success.

A repeated pair deserves a note. It raises the dependent's counter twice but adds one parent entry, so the counter never reaches zero. The build then fails even without a cycle. This is the code's behaviour, and the model keeps it (`Projects.AddDependencyTwice`, `Scenarios.RepeatedPairFails`). Edges are neither de-duplicated nor self-loops rejected.

## Model

| member | source | states |
|---|---|---|
| Projects.AddDependency | Project.java:26-30 | the dependent's counter rises by exactly one; the dependency's parent set gains the dependent; ids, the dependent's parents, the dependency's counter and every other node are untouched, except that for a self-dependency both effects land on one node |
| Projects.AddDependencyDeps | Project.java:26-30 | seen from the dependency side, the new edge adds exactly one dependency to the dependent and none to any other node |
| Projects.AddDependencyTwice | Project.java:26-30 | the same dependency added twice raises the counter by two but leaves a single parent entry, so a counter that was at least its number of distinct dependencies now exceeds it |
| Graphs.GetProject | Graph.java:57-59 | returns a node exactly when the id is in the project map, and that node carries the id |
| Graphs.AddProject | Graph.java:49-55 | `putIfAbsent` into the project map and the roots: a known id changes nothing, a new id appends a fresh counter-zero root and keeps every existing entry |
| Graphs.AddAllProjects | Graph.java:18-29 | after clearing and adding every id, the graph holds one counter-zero, parentless root per distinct id in first-occurrence order, reachable under its id |
| Graphs.FirstUnknown | Graph.java:32-38 | the position of the first pair with an id missing from the project list; every earlier pair names known ids |
| Graphs.ApplyPair | Graph.java:43-45 | one known pair: the dependent leaves the roots, its counter rises by one and its recorded dependencies gain exactly the dependency, while every other node keeps its counter and its recorded dependencies, every node keeps its id, and the id map is unchanged |
| Graphs.DependencyCountIsMultiplicity | Graph.java:33-45 | the counter the population gives a node is the multiplicity of its id among the pairs' dependents, repeats counted |
| Graphs.SaturationStep | Graph.java:45 | after one more edge every counter equals its number of distinct dependencies exactly when it did before and the edge was new |
| Graphs.ProgressStep | Graph.java:32-46 | one pass of the dependency loop extends the population description, the well-formedness and the link between repeated pairs and inflated counters by that pair |
| Graphs.AddAllPairs | Graph.java:31-45 | the dependency loop records the pairs in order: it finishes exactly when every pair names known ids, with the population description holding for all pairs; otherwise it stops at the first unknown pair, reports its two ids, and leaves the graph described by the pairs before it |
| Graphs.SetProjects | Graph.java:18-47 | populated exactly when every pair names known ids, and then as `Populates` describes, with no inflated counter exactly when no pair repeats; otherwise the error names the first offending pair's two ids and the graph has every earlier pair applied |
| Graphs.PopulationIsUnique | Graph.java:18-20 | two graphs populated from the same input are equal, so repopulating leaves nothing of an earlier population |
| Kahn.SeqOfSet | Graph.java:80 | the initial queue holds every root exactly once, in some order |
| Kahn.InitialState | Graph.java:79-80 | with nothing resolved and the roots queued, the loop state holds |
| Kahn.Dequeue | Graph.java:82-85 | the queue head has every dependency already resolved and a counter never inflated; appending it keeps the order duplicate-free and dependency-respecting |
| Kahn.Decrement | Graph.java:88-91 | decrementing a parent of the resolved node keeps its counter consistent, and the parent joins the queue exactly when the counter reaches zero |
| Kahn.ReleaseParents | Graph.java:87-92 | after visiting every parent of the resolved node, the loop state holds again |
| Kahn.Complete | Graph.java:95-99 | when every node is resolved the output is a permutation of the nodes that respects every edge, no counter was inflated, and every counter is zero |
| Kahn.ReadyNodeExists | Graph.java:82-96 | if some order respects every edge and no counter is inflated, an unresolved node with counter zero exists whenever the output is short |
| Kahn.Stopped | Graph.java:95-97 | when the loop stops, the output is complete exactly when no counter is inflated and some order respects every edge |
| Kahn.BuildOrder | Graph.java:78-100 | succeeds exactly when no counter is inflated and some order respects every edge; on success the order lists every node once, dependencies first, and leaves every counter at zero; ids and parents are untouched |
| Entry.TopoOrderNamesBuildOrder | Graph.java:95-99 | the returned nodes, read as ids, name every project once and put each pair's dependency before its dependent |
| Entry.BuildOrderIndexesTopoOrder | Graph.java:95-99 | conversely, any build order of the ids gives an order of the nodes that respects every edge |
| Entry.OrderableMeans | Graph.java:95-99 | on a populated graph, the nodes have an edge-respecting order exactly when the ids have a build order |
| Entry.BuildOrderLength | Graph.java:95 | a build order has as many entries as there are distinct project ids |
| Entry.CycleHasNoBuildOrder | MainTest.java:39-53 | a cycle through known ids, a self-pair included, admits no build order |
| Entry.NoCycles | MainTest.java:39-53 | when a build order exists, no cycle does |
| Entry.OrderPopulated | Graph.java:78-100 | `buildOrder` on a freshly populated graph, in ids: succeeds exactly when no pair repeats and a build order exists, returning such an order with every counter zero |
| Entry.PopulateAndOrder | Main.java:25-28 | populate then order: the first unknown pair's ids, or success exactly when all ids are known, no pair repeats and a build order exists; never success with a cycle |
| Entry.BuildOrder | Main.java:20-29 | "No projects provided" exactly for a missing or empty list; otherwise the unknown-id error, "No valid build order", or every distinct project once in a build order with every counter zero, as `PopulateAndOrder` states |
| Scenarios.Succeeds | Main.java:20-29 | known ids, distinct pairs and an existing build order give success with every project once and every counter zero |
| Scenarios.FailsOnCycle | MainTest.java:39-53 | known ids whose pairs close a cycle give "No valid build order" |
| Scenarios.NoProjectsProvided | MainTest.java:14-18 | a null and an empty project list both give "No projects provided" |
| Scenarios.IndependentProjects | MainTest.java:20-24 | six projects and no pairs give all six back, each of a to f exactly once, every counter zero |
| Scenarios.HeaderOrder | Main.java:8-12 | the order f, e, a, b, d, c of the header comment is a build order of the header example |
| Scenarios.HeaderExample | MainTest.java:26-37 | the header example gives six projects with every counter zero, in a build order |
| Scenarios.CycleFails | MainTest.java:39-53 | closing the cycle a, e, f gives "No valid build order" |
| Scenarios.CycleWithIsolatedProjectsFails | MainTest.java:55-69 | the same cycle with isolated projects g and h still gives "No valid build order" |
| Scenarios.SelfPairFails | Graph.java:82-97 | a project that depends on itself gives "No valid build order" |
| Scenarios.UnknownProjectReported | Graph.java:32-38 | the first pair naming an unknown id is reported, with its dependency and dependent ids |
| Scenarios.RepeatedPairFails | Project.java:26-30 | the same pair given twice, with no cycle, still gives "No valid build order" |

## Left out

- The `project.id == null` check in `addProject` (Graph.java:50-51), a null dependency list and pair arrays shorter than two. Ids are plain strings and pairs are tuples, so these inputs cannot be expressed.
- The text of the exception messages (`String.format`). The error values carry the two ids of the offending pair instead.
- Java object identity and the `List<Project>` return type. The result is the sequence of the nodes' final values, and parents are node indices.
- The concrete iteration orders of `HashMap`, including the output "f, e, a, b, d, c" in the Main.java header comment. The model proves only that this order is one valid build order (`Scenarios.HeaderOrder`), not that it is the one returned.
- Projects.AddDependency: 32-bit `int` wrap-around of `dependencies++` (Project.java:27) is not modelled, because counters are unbounded integers. 2^31 pairs naming one project would already wrap the counter.
- Kahn.BuildOrder: the counters it decrements and compares with zero are unbounded too, so the same wrap-around is not modelled there.
- Kahn.BuildOrder: calling `buildOrder` a second time without repopulating is not modelled. That call would start from the counters the first run left behind, which is not a promised behaviour. The method requires the well-formedness `setProjects` establishes.
- `new Project(id)` is `Projects.NewProject`. Its result is fixed by its body, so it has no contract of its own. `AddProject` and `AddAllProjects` state what the fresh node looks like.
