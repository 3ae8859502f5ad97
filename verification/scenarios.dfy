/** The scenarios of MainTest.java, plus the unknown-id, self-pair and
    repeated-pair cases, each stated as the outcome Main.buildOrder must
    produce whatever order the hash maps iterate in. */
module Scenarios {
  import opened Common
  import opened Graphs
  import opened Entry

  const Letters: seq<string> := ["a", "b", "c", "d", "e", "f"]

  /** The pairs of the example in Main.java's header. */
  const HeaderPairs: seq<Pair> := [("a", "d"), ("f", "b"), ("b", "d"), ("f", "a"), ("d", "c")]

  /** The header pairs closed into the cycle a -> e -> f -> a. */
  const CyclicPairs: seq<Pair> := HeaderPairs + [("e", "f"), ("a", "e")]

  lemma LettersDistinct()
    ensures Distinct(Letters) == Letters
  {
    DistinctOfUnique(Letters);
  }

  /** Main.buildOrder on known ids, distinct pairs and ids that have a build
      order: every project comes back once, in such an order, at zero. */
  method Succeeds(ids: seq<string>, pairs: seq<Pair>) returns (r: Outcome)
    requires |ids| > 0 && AllKnown(ids, pairs) && NoDuplicates(pairs)
    requires exists o :: IsBuildOrder(ids, pairs, o)
    ensures r.Built? && |r.projects| == |Distinct(ids)|
    ensures IsBuildOrder(ids, pairs, IdsOf(r.projects))
    ensures forall a :: 0 <= a < |r.projects| ==> r.projects[a].dependencies == 0
  {
    r := BuildOrder(Some(ids), pairs);
  }

  /** Main.buildOrder on known ids whose pairs close a cycle: "No valid
      build order". */
  method FailsOnCycle(ids: seq<string>, pairs: seq<Pair>, c: seq<string>) returns (r: Outcome)
    requires |ids| > 0 && AllKnown(ids, pairs) && IsCycle(pairs, c)
    ensures r == NoValidOrder
  {
    r := BuildOrder(Some(ids), pairs);
  }

  /** A null and an empty project list both fail with "No projects provided". */
  method NoProjectsProvided() returns (fromNull: Outcome, fromEmpty: Outcome)
    ensures fromNull == NoProjects && fromEmpty == NoProjects
  {
    fromNull := BuildOrder(None, []);
    fromEmpty := BuildOrder(Some([]), []);
  }

  /** Six projects and no pairs: all six come back, each once, every counter
      at zero. */
  method IndependentProjects() returns (r: Outcome)
    ensures r.Built? && |r.projects| == 6
    ensures forall a :: 0 <= a < |r.projects| ==> r.projects[a].dependencies == 0
    ensures IsBuildOrder(Letters, [], IdsOf(r.projects))
  {
    assert IsBuildOrder(Letters, [], Letters);
    LettersDistinct();
    r := BuildOrder(Some(Letters), []);
  }

  lemma HeaderPairsKnown()
    ensures AllKnown(Letters, HeaderPairs)
  {
    AllKnownMeans(Letters, HeaderPairs);
  }

  lemma HeaderPairsDistinct()
    ensures NoDuplicates(HeaderPairs)
  {
  }

  lemma HeaderOrderLists(order: seq<string>)
    requires order == ["f", "e", "a", "b", "d", "c"]
    ensures NoDuplicates(order) && forall x :: x in order <==> x in Letters
  {
  }

  /** The order given in Main.java's header respects every pair. */
  lemma HeaderOrder()
    ensures exists o :: IsBuildOrder(Letters, HeaderPairs, o)
  {
    var order := ["f", "e", "a", "b", "d", "c"];
    HeaderOrderLists(order);
    forall k | 0 <= k < |HeaderPairs|
      ensures Before(order, HeaderPairs[k].0, HeaderPairs[k].1)
    {
      if k == 0 {
        assert order[2] == "a" && order[4] == "d";
      } else if k == 1 {
        assert order[0] == "f" && order[3] == "b";
      } else if k == 2 {
        assert order[3] == "b" && order[4] == "d";
      } else if k == 3 {
        assert order[0] == "f" && order[2] == "a";
      } else {
        assert order[4] == "d" && order[5] == "c";
      }
    }
    PairsInOrder(Letters, HeaderPairs, order);
  }

  /** The header example: all six projects come back, every counter at zero,
      each pair's dependency before its dependent. */
  method HeaderExample() returns (r: Outcome)
    ensures r.Built? && |r.projects| == 6
    ensures forall a :: 0 <= a < |r.projects| ==> r.projects[a].dependencies == 0
    ensures IsBuildOrder(Letters, HeaderPairs, IdsOf(r.projects))
  {
    HeaderPairsKnown();
    HeaderPairsDistinct();
    HeaderOrder();
    LettersDistinct();
    r := Succeeds(Letters, HeaderPairs);
  }

  lemma CyclicPairsKnown(ids: seq<string>)
    requires forall x :: x in Letters ==> x in ids
    ensures AllKnown(ids, CyclicPairs)
  {
    AllKnownMeans(ids, CyclicPairs);
  }

  /** Closing the cycle a -> e -> f -> a leaves no valid build order. */
  method CycleFails() returns (r: Outcome)
    ensures r == NoValidOrder
  {
    assert IsCycle(CyclicPairs, ["a", "e", "f"]);
    CyclicPairsKnown(Letters);
    r := FailsOnCycle(Letters, CyclicPairs, ["a", "e", "f"]);
  }

  /** The same cycle with two extra isolated projects g and h still fails. */
  method CycleWithIsolatedProjectsFails() returns (r: Outcome)
    ensures r == NoValidOrder
  {
    assert IsCycle(CyclicPairs, ["a", "e", "f"]);
    CyclicPairsKnown(Letters + ["g", "h"]);
    r := FailsOnCycle(Letters + ["g", "h"], CyclicPairs, ["a", "e", "f"]);
  }

  /** A project that depends on itself can never be built. */
  method SelfPairFails() returns (r: Outcome)
    ensures r == NoValidOrder
  {
    assert IsCycle([("a", "a")], ["a"]);
    r := FailsOnCycle(["a"], [("a", "a")], ["a"]);
  }

  /** The first pair naming an unknown id is the one reported, both ids in
      the order the pair gives them. */
  method UnknownProjectReported() returns (r: Outcome)
    ensures r == InvalidInput("x", "a")
  {
    r := BuildOrder(Some(["a", "b"]), [("a", "b"), ("x", "a"), ("y", "z")]);
  }

  /** The same pair given twice: no cycle, yet the dependent's counter never
      reaches zero, so the build fails. */
  method RepeatedPairFails() returns (r: Outcome)
    ensures r == NoValidOrder
  {
    var pairs := [("a", "b"), ("a", "b")];
    assert pairs[0] == pairs[1];
    r := BuildOrder(Some(["a", "b"]), pairs);
  }
}
