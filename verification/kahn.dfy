/** Graph.java `buildOrder`: Kahn's algorithm over the populated graph.
    The Java code decrements the nodes' own counters; here the counters are a
    local copy `cnt` and the method hands back the nodes as the loop leaves
    them. Both HashMap iterations of the source (the roots that seed the
    queue, the parents of a resolved node) are arbitrary choices (`:|`). */
module Kahn {
  import opened Common
  import opened Projects
  import opened Graphs

  /** `buildOrder`'s outcome: the resolved nodes in order, or the
      "No valid build order" exception. */
  datatype Order = Built(order: seq<nat>) | NoValidOrder

  /** A dependent never comes before one of its dependencies. */
  ghost predicate RespectsEdges(arena: seq<Project>, out: seq<nat>)
    requires forall a :: 0 <= a < |out| ==> out[a] < |arena|
  {
    forall a, b :: 0 <= a < |out| && 0 <= b < |out| && out[b] in arena[out[a]].parents ==> a < b
  }

  /** `o` lists every node once, dependencies first. */
  ghost predicate IsTopoOrder(arena: seq<Project>, o: seq<nat>) {
    && |o| == |arena|
    && NoDuplicates(o)
    && (forall a :: 0 <= a < |o| ==> o[a] < |arena|)
    && RespectsEdges(arena, o)
  }

  /** Some order lists every node once, dependencies first. */
  ghost predicate Orderable(arena: seq<Project>) {
    exists o: seq<nat> :: IsTopoOrder(arena, o)
  }

  /** The resolved prefix: each node at most once, after all of its
      dependencies, and only if its counter was never inflated by a repeated
      pair. */
  ghost predicate Resolved(arena: seq<Project>, out: seq<nat>) {
    && NoDuplicates(out)
    && (forall a :: 0 <= a < |out| ==> out[a] < |arena|)
    && (forall a :: 0 <= a < |out| ==> Deps(arena, out[a]) <= Elems(out))
    && RespectsEdges(arena, out)
    && (forall a :: 0 <= a < |out| ==> arena[out[a]].dependencies == |Deps(arena, out[a])|)
  }

  /** Each counter is its initial value less its resolved dependencies; the
      parents in `todo` still wait for the decrement owed to the last
      resolved node. */
  ghost predicate Counted(arena: seq<Project>, cnt: seq<int>, out: seq<nat>, todo: set<nat>) {
    && |cnt| == |arena|
    && (forall j :: 0 <= j < |arena| ==> CountedAt(arena, cnt, out, todo, j))
    && (forall j :: j in todo ==> j < |arena| && j !in out)
    && (forall a :: 0 <= a < |out| ==> out[a] < |cnt| && cnt[out[a]] == 0)
  }

  /** The counter of node `j` in that state. */
  ghost predicate CountedAt(arena: seq<Project>, cnt: seq<int>, out: seq<nat>, todo: set<nat>, j: nat)
    requires j < |arena| == |cnt|
  {
    cnt[j] == arena[j].dependencies - |Deps(arena, j) * Elems(out)| + (if j in todo then 1 else 0)
  }

  /** The queue holds, once each, exactly the unresolved nodes at zero. */
  ghost predicate Queued(arena: seq<Project>, cnt: seq<int>, out: seq<nat>, queue: seq<nat>)
    requires |cnt| == |arena|
  {
    && NoDuplicates(queue)
    && (forall a :: 0 <= a < |queue| ==> queue[a] < |arena| && queue[a] !in out && cnt[queue[a]] == 0)
    && (forall j :: 0 <= j < |arena| && j !in out && cnt[j] == 0 ==> j in queue)
  }

  /** The loop state of `buildOrder`. */
  ghost predicate KahnState(g: Graph, cnt: seq<int>, out: seq<nat>, queue: seq<nat>, todo: set<nat>) {
    && Resolved(g.nodes, out)
    && Counted(g.nodes, cnt, out, todo)
    && Queued(g.nodes, cnt, out, queue)
  }

  /** `new LinkedList<>(initialProjects.values())`: the roots in some order. */
  method SeqOfSet(s: set<nat>) returns (q: seq<nat>)
    ensures NoDuplicates(q)
    ensures forall x :: x in q <==> x in s
  {
    q := [];
    var rest := s;
    while rest != {}
      invariant NoDuplicates(q)
      invariant forall x :: x in q <==> x in s && x !in rest
      invariant rest <= s
      decreases rest
    {
      var x :| x in rest;
      q := q + [x];
      rest := rest - {x};
    }
  }

  /** The initial counters, one per node. */
  function InitialCounters(arena: seq<Project>): seq<int> {
    seq(|arena|, j requires 0 <= j < |arena| => arena[j].dependencies)
  }

  /** The state before the first iteration: nothing resolved, the roots
      queued. */
  lemma InitialState(g: Graph, queue: seq<nat>)
    requires WellFormed(g)
    requires NoDuplicates(queue) && forall x :: x in queue <==> x in g.initialProjects
    ensures KahnState(g, InitialCounters(g.nodes), [], queue, {})
  {
    var cnt := InitialCounters(g.nodes);
    forall j | 0 <= j < |g.nodes|
      ensures CountedAt(g.nodes, cnt, [], {}, j)
    {
      assert Deps(g.nodes, j) * Elems([]) == {};
    }
    assert Counted(g.nodes, cnt, [], {});
    forall a | 0 <= a < |queue|
      ensures queue[a] < |g.nodes| && cnt[queue[a]] == 0
    {
      assert queue[a] in g.initialProjects;
    }
    assert Queued(g.nodes, cnt, [], queue);
  }

  /** The head `p` of the queue has counter zero, so all of its
      dependencies are resolved and its counter was never inflated. */
  lemma HeadIsReady(g: Graph, cnt: seq<int>, out: seq<nat>, p: nat)
    requires WellFormed(g)
    requires Counted(g.nodes, cnt, out, {})
    requires p < |g.nodes| && cnt[p] == 0
    ensures Deps(g.nodes, p) <= Elems(out)
    ensures g.nodes[p].dependencies == |Deps(g.nodes, p)|
  {
    assert CountedAt(g.nodes, cnt, out, {}, p);
    CardIntersection(Deps(g.nodes, p), Elems(out));
  }

  lemma DequeueResolved(g: Graph, out: seq<nat>, p: nat)
    requires WellFormed(g)
    requires Resolved(g.nodes, out)
    requires p < |g.nodes| && p !in out
    requires Deps(g.nodes, p) <= Elems(out)
    requires g.nodes[p].dependencies == |Deps(g.nodes, p)|
    ensures Resolved(g.nodes, out + [p])
    ensures forall j :: j in g.nodes[p].parents ==> j < |g.nodes| && j !in out + [p]
  {
    var out' := out + [p];
    assert Elems(out') == Elems(out) + {p};
    forall j | j in g.nodes[p].parents
      ensures j < |g.nodes| && j !in out'
    {
      assert p in Deps(g.nodes, j);
    }
    forall a, b | 0 <= a < |out'| && 0 <= b < |out'| && out'[b] in g.nodes[out'[a]].parents
      ensures a < b
    {
    }
  }

  lemma DequeueCounted(g: Graph, cnt: seq<int>, out: seq<nat>, p: nat)
    requires WellFormed(g)
    requires Counted(g.nodes, cnt, out, {})
    requires p < |g.nodes| && p !in out && cnt[p] == 0
    requires forall j :: j in g.nodes[p].parents ==> j < |g.nodes| && j !in out + [p]
    ensures Counted(g.nodes, cnt, out + [p], g.nodes[p].parents)
  {
    forall j | 0 <= j < |g.nodes|
      ensures CountedAt(g.nodes, cnt, out + [p], g.nodes[p].parents, j)
    {
      assert CountedAt(g.nodes, cnt, out, {}, j);
      CardIntersectionAppend(Deps(g.nodes, j), out, p);
    }
  }

  lemma DequeueQueued(g: Graph, cnt: seq<int>, out: seq<nat>, queue: seq<nat>)
    requires |cnt| == |g.nodes|
    requires Queued(g.nodes, cnt, out, queue)
    requires |queue| > 0
    ensures Queued(g.nodes, cnt, out + [queue[0]], queue[1..])
  {
    assert forall a :: 0 <= a < |queue| - 1 ==> queue[1..][a] == queue[a + 1];
  }

  /** Dequeuing the head `p` (counter zero) and appending it to the output
      keeps the state, with `p`'s parents waiting for their decrement. */
  lemma Dequeue(g: Graph, cnt: seq<int>, out: seq<nat>, queue: seq<nat>)
    requires WellFormed(g)
    requires KahnState(g, cnt, out, queue, {})
    requires |queue| > 0
    ensures queue[0] < |g.nodes| && |out| < |g.nodes|
    ensures KahnState(g, cnt, out + [queue[0]], queue[1..], g.nodes[queue[0]].parents)
  {
    var p := queue[0];
    HeadIsReady(g, cnt, out, p);
    DequeueResolved(g, out, p);
    DequeueCounted(g, cnt, out, p);
    DequeueQueued(g, cnt, out, queue);
    IndicesBound(out + [p], |g.nodes|);
  }

  lemma DecrementCounted(g: Graph, cnt: seq<int>, out: seq<nat>, todo: set<nat>, q: nat)
    requires WellFormed(g)
    requires Counted(g.nodes, cnt, out, todo)
    requires q in todo
    ensures q < |cnt| && cnt[q] >= 1
    ensures Counted(g.nodes, cnt[q := cnt[q] - 1], out, todo - {q})
  {
    assert CountedAt(g.nodes, cnt, out, todo, q);
    CardIntersection(Deps(g.nodes, q), Elems(out));
    var cnt' := cnt[q := cnt[q] - 1];
    forall j | 0 <= j < |g.nodes|
      ensures CountedAt(g.nodes, cnt', out, todo - {q}, j)
    {
      assert CountedAt(g.nodes, cnt, out, todo, j);
    }
  }

  lemma DecrementQueued(g: Graph, cnt: seq<int>, out: seq<nat>, queue: seq<nat>, q: nat)
    requires |cnt| == |g.nodes| && q < |cnt| && q !in out && cnt[q] >= 1
    requires Queued(g.nodes, cnt, out, queue)
    ensures var cnt' := cnt[q := cnt[q] - 1];
      Queued(g.nodes, cnt', out, if cnt'[q] == 0 then queue + [q] else queue)
  {
    assert q !in queue;
  }

  /** Decrementing the counter of a waiting parent `q`, and queueing it when
      the counter reaches exactly zero, keeps the state. */
  lemma Decrement(g: Graph, cnt: seq<int>, out: seq<nat>, queue: seq<nat>, todo: set<nat>, q: nat)
    requires WellFormed(g)
    requires KahnState(g, cnt, out, queue, todo)
    requires q in todo
    ensures q < |cnt| && cnt[q] >= 1
    ensures var cnt' := cnt[q := cnt[q] - 1];
      KahnState(g, cnt', out, if cnt'[q] == 0 then queue + [q] else queue, todo - {q})
  {
    DecrementCounted(g, cnt, out, todo, q);
    DecrementQueued(g, cnt, out, queue, q);
  }

  /** When every node is resolved the output is a build order, the initial
      counters had no repeated edge, and every counter has reached zero. */
  lemma Complete(g: Graph, cnt: seq<int>, out: seq<nat>, queue: seq<nat>)
    requires KahnState(g, cnt, out, queue, {})
    requires |out| == |g.nodes|
    ensures IsTopoOrder(g.nodes, out)
    ensures Saturated(g.nodes)
    ensures forall j :: 0 <= j < |cnt| ==> cnt[j] == 0
  {
    IndicesBound(out, |g.nodes|);
    forall j | 0 <= j < |g.nodes|
      ensures g.nodes[j].dependencies == |Deps(g.nodes, j)| && cnt[j] == 0
    {
      assert j in Elems(out);
      var a :| 0 <= a < |out| && out[a] == j;
    }
  }

  /** The position of the first element of `o` outside `s`. */
  function FirstOutside(o: seq<nat>, s: set<nat>, c: nat): (b: nat)
    requires c < |o| && o[c] !in s
    ensures b <= c && o[b] !in s
    ensures forall a :: 0 <= a < b ==> o[a] in s
    decreases c
  {
    if o[0] !in s then 0
    else
      var b := FirstOutside(o[1..], s, c - 1);
      assert forall a :: 0 < a <= b ==> o[a] == o[1..][a - 1];
      1 + b
  }

  /** Kahn's argument for the other direction: with an order that respects
      every edge and no inflated counter, some unresolved node has all its
      dependencies resolved, so its counter is zero. */
  lemma ReadyNodeExists(g: Graph, cnt: seq<int>, out: seq<nat>)
    requires NoDuplicates(out) && forall a :: 0 <= a < |out| ==> out[a] < |g.nodes|
    requires |out| < |g.nodes|
    requires Counted(g.nodes, cnt, out, {})
    ensures Saturated(g.nodes) && Orderable(g.nodes) ==>
      exists j :: 0 <= j < |g.nodes| && j !in out && cnt[j] == 0
  {
    if Saturated(g.nodes) && Orderable(g.nodes) {
      var n := |g.nodes|;
      var o: seq<nat> :| IsTopoOrder(g.nodes, o);
      IndicesBound(o, n);
      IndicesBound(out, n);
      // some node is missing from the output; take the earliest one in `o`
      var missing :| missing in Range(n) && missing !in Elems(out);
      assert missing in Elems(o);
      var c :| 0 <= c < n && o[c] == missing;
      var b := FirstOutside(o, Elems(out), c);
      var j := o[b];
      forall i | i in Deps(g.nodes, j)
        ensures i in Elems(out)
      {
        assert i in Elems(o);
        var a :| 0 <= a < n && o[a] == i;
      }
      assert Deps(g.nodes, j) * Elems(out) == Deps(g.nodes, j);
      assert CountedAt(g.nodes, cnt, out, {}, j);
    }
  }

  /** The inner loop of `buildOrder`: every parent of the node just
      resolved loses one from its counter, in the arbitrary order of the
      parents map, and joins the queue when its counter reaches exactly
      zero. */
  method ReleaseParents(g: Graph, cnt: seq<int>, out: seq<nat>, queue: seq<nat>, todo: set<nat>)
    returns (cnt': seq<int>, queue': seq<nat>)
    requires WellFormed(g)
    requires KahnState(g, cnt, out, queue, todo)
    ensures KahnState(g, cnt', out, queue', {})
  {
    cnt', queue' := cnt, queue;
    var rest := todo;
    while rest != {}
      invariant KahnState(g, cnt', out, queue', rest)
      decreases rest
    {
      var q :| q in rest;
      Decrement(g, cnt', out, queue', rest, q);
      cnt' := cnt'[q := cnt'[q] - 1];
      if cnt'[q] == 0 {
        queue' := queue' + [q];
      }
      rest := rest - {q};
    }
  }

  /** The nodes as the loop leaves them: each counter is its final value.
      Only counters change, so every node keeps its recorded dependencies. */
  function WithCounters(arena: seq<Project>, cnt: seq<int>): (after: seq<Project>)
    requires |cnt| == |arena|
    ensures forall j: nat :: Deps(after, j) == Deps(arena, j)
  {
    seq(|arena|, j requires 0 <= j < |arena| => arena[j].(dependencies := cnt[j]))
  }

  /** When the queue runs dry, or its head still waits on a dependency,
      the order is complete exactly when a build order exists. */
  lemma Stopped(g: Graph, cnt: seq<int>, out: seq<nat>, queue: seq<nat>)
    requires KahnState(g, cnt, out, queue, {})
    requires !(|queue| > 0 && cnt[queue[0]] == 0)
    ensures |out| == |g.nodes| <==> Saturated(g.nodes) && Orderable(g.nodes)
    ensures |out| == |g.nodes| ==> IsTopoOrder(g.nodes, out)
    ensures |out| == |g.nodes| ==> forall j :: 0 <= j < |cnt| ==> cnt[j] == 0
  {
    IndicesBound(out, |g.nodes|);
    if |out| == |g.nodes| {
      Complete(g, cnt, out, queue);
    } else {
      ReadyNodeExists(g, cnt, out);
    }
  }

  /** `buildOrder()`: Kahn's algorithm from the precomputed roots. On success
      the order lists every node once with dependencies first and leaves
      every counter at zero; it succeeds exactly when no dependency edge was
      recorded twice and some order respects every edge. */
  method BuildOrder(g: Graph) returns (r: Order, after: seq<Project>)
    requires WellFormed(g)
    ensures |after| == |g.nodes|
    ensures forall j :: 0 <= j < |after| ==>
      after[j].id == g.nodes[j].id && after[j].parents == g.nodes[j].parents
    ensures r.Built? ==> IsTopoOrder(g.nodes, r.order)
    ensures r.Built? ==> forall j :: 0 <= j < |after| ==> after[j].dependencies == 0
    ensures r.Built? <==> Saturated(g.nodes) && Orderable(g.nodes)
  {
    var n := |g.nodes|;
    var queue := SeqOfSet(g.initialProjects);
    var cnt := InitialCounters(g.nodes);
    var out: seq<nat> := [];
    InitialState(g, queue);
    while |queue| > 0 && cnt[queue[0]] == 0
      invariant KahnState(g, cnt, out, queue, {})
      decreases n - |out|
    {
      Dequeue(g, cnt, out, queue);
      var p := queue[0];
      queue := queue[1..];
      out := out + [p];
      cnt, queue := ReleaseParents(g, cnt, out, queue, g.nodes[p].parents);
    }
    after := WithCounters(g.nodes, cnt);
    Stopped(g, cnt, out, queue);
    if |out| != n {
      r := NoValidOrder;
    } else {
      r := Built(out);
    }
  }
}
