/**
 Exactly when a concurrent read returns a node that was cached when the read began: what decides is
 whether an upsert of the node is in flight at the moment the read loads its graph.
 */
module ConcurrentReads {
  import opened CatalogCore
  import opened NodeIri
  import opened QuadStore
  import opened ConcurrentCache
  import Wrappers
  import CatalogCache

  /** Some upsert of the node has removed the old entry and not yet inserted the new one. */
  ghost predicate InFlight(s: State, n: NodeId) {
    exists w :: w in s.writers && s.writers[w].originNode == n
  }

  /** At most one upsert per node is in flight, as when a single crawler writes. */
  ghost predicate OneWriterPerNode(s: State) {
    forall v, w :: v in s.writers && w in s.writers && v != w ==> s.writers[v].originNode != s.writers[w].originNode
  }

  /** A node in flight is not held. */
  ghost predicate Exclusive(s: State) {
    forall w :: w in s.writers ==> !HoldsNode(s, s.writers[w].originNode)
  }

  ghost predicate CalmRun(states: seq<State>, steps: seq<Step>) {
    && Run(states, steps) && Inv(states[0]) && Exclusive(states[0])
    && forall i :: 0 <= i < |states| ==> OneWriterPerNode(states[i])
  }

  /** The step deletes the node, or gives up an upsert of it. */
  ghost predicate Loses(s: State, step: Step, n: NodeId) {
    match step
    case RemoveNode(m) => m == n
    case AbandonUpsert(w) => w in s.writers && s.writers[w].originNode == n
    case _ => false
  }

  // ---------------------------------------------------------------- held, in flight, or lost

  lemma ExclusiveStep(s: State, step: Step, s': State)
    requires Exclusive(s) && OneWriterPerNode(s) && Next(s, step, s')
    ensures Exclusive(s')
  {
    hide GraphIri;
    forall v, c | v in s'.writers && Holds(s', c) ensures c.originNode != s'.writers[v].originNode {
      assert InOwnGraph(QuadFor(c), GraphIri(c.originNode));
      assert Holds(s, c) ==> HoldsNode(s, c.originNode);
    }
  }

  lemma {:induction false} CalmAt(states: seq<State>, steps: seq<Step>, k: nat)
    requires CalmRun(states, steps) && k < |states|
    ensures Inv(states[k]) && Exclusive(states[k])
  {
    hide Next, Inv;
    StoreIsSafe(states, steps, k);
    if k > 0 {
      CalmAt(states, steps, k - 1);
      ExclusiveStep(states[k - 1], steps[k - 1], states[k]);
    }
  }

  /** Only a deletion or an abandoned upsert makes a node neither held nor in flight. */
  lemma StillThere(s: State, step: Step, s': State, n: NodeId)
    requires Next(s, step, s') && !Loses(s, step, n)
    requires HoldsNode(s, n) || InFlight(s, n)
    ensures HoldsNode(s', n) || InFlight(s', n)
  {
    hide GraphIri;
    if InFlight(s, n) {
      var w :| w in s.writers && s.writers[w].originNode == n;
      if step == FinishUpsert(w) {
        assert Holds(s', s.writers[w]);
      } else {
        assert w in s'.writers && s'.writers[w].originNode == n;
      }
    } else {
      var c :| Holds(s, c) && c.originNode == n;
      var removed :=
        match step
        case BeginUpsert(_, d) => Wrappers.Some(d.originNode)
        case RemoveNode(m) => Wrappers.Some(m)
        case _ => Wrappers.None;
      if removed.Some? && GraphIri(removed.value) == GraphIri(n) {
        GraphIriInjective(removed.value, n);
        assert step.BeginUpsert? && step.w in s'.writers;
      } else {
        assert Holds(s', c);
      }
    }
  }

  lemma {:induction false} StillThereAt(states: seq<State>, steps: seq<Step>, n: NodeId, b: nat, k: nat)
    requires Run(states, steps) && b <= k < |states| && HoldsNode(states[b], n)
    requires forall i :: b <= i < k ==> !Loses(states[i], steps[i], n)
    ensures HoldsNode(states[k], n) || InFlight(states[k], n)
  {
    hide Next, Loses;
    if b < k {
      StillThereAt(states, steps, n, b, k - 1);
      StillThere(states[k - 1], steps[k - 1], states[k], n);
    }
  }

  // ---------------------------------------------------------------- the one load that decides

  /** The load of a node's graph brings the node exactly when it is held at that moment. */
  lemma LoadBringsHeld(states: seq<State>, steps: seq<Step>, r: nat, b: nat, l: nat, n: NodeId)
    requires Run(states, steps) && b < l < |steps| && ReadInv(states, r, b, l) && Inv(states[l])
    requires steps[l] == LoadGraph(r, Named(GraphIri(n)))
    ensures r in states[l + 1].readers && Named(GraphIri(n)) !in states[l + 1].readers[r].pending
    ensures Contains(states[l + 1].readers[r].loaded, n) <==> HoldsNode(states[l], n)
  {
    hide Inv, GraphIri, Loads;
    var g, before := Named(GraphIri(n)), states[l].readers[r].loaded;
    assert Next(states[l], steps[l], states[l + 1]);
    var loaded :| LoadedInto(states[l], r, g, loaded, states[l + 1]);
    LoadedIsHeld(states[l], g, loaded);
    var after := states[l + 1].readers[r].loaded;
    assert after == before + loaded;
    if i :| 0 <= i < |after| && after[i].originNode == n {
      assert i >= |before|;
      assert after[i] in loaded;
    }
    if HoldsNode(states[l], n) {
      assert after[|before|].originNode == n;
    }
  }

  /** Once a graph is loaded, the read neither gains nor loses its node. */
  lemma {:induction false} OtherLoadsKeep(states: seq<State>, steps: seq<Step>, r: nat, l: nat, e: nat, n: NodeId)
    requires CalmRun(states, steps) && l <= e < |states| && r in states[l].readers
    requires Named(GraphIri(n)) !in states[l].readers[r].pending
    ensures r in states[e].readers && Named(GraphIri(n)) !in states[e].readers[r].pending
    ensures Contains(states[e].readers[r].loaded, n) <==> Contains(states[l].readers[r].loaded, n)
  {
    hide Inv, GraphIri, Exclusive, OneWriterPerNode;
    if l < e {
      OtherLoadsKeep(states, steps, r, l, e - 1, n);
      CalmAt(states, steps, e - 1);
      OtherStepKeeps(states[e - 1], steps[e - 1], states[e], r, n);
    }
  }

  lemma OtherStepKeeps(s: State, step: Step, s': State, r: nat, n: NodeId)
    requires Next(s, step, s') && Inv(s) && r in s.readers && Named(GraphIri(n)) !in s.readers[r].pending
    ensures r in s'.readers && Named(GraphIri(n)) !in s'.readers[r].pending
    ensures Contains(s'.readers[r].loaded, n) <==> Contains(s.readers[r].loaded, n)
  {
    hide Inv, GraphIri, Loads;
    if step.LoadGraph? && step.r == r {
      var l :| LoadedInto(s, r, step.graph, l, s');
      LoadedIsHeld(s, step.graph, l);
      var before, after := s.readers[r].loaded, s'.readers[r].loaded;
      assert after == before + l;
      assert forall k :: |before| <= k < |after| ==> after[k] in l;
      if i :| 0 <= i < |after| && after[i].originNode == n {
        assert i < |before|;
        assert before[i] == after[i];
      }
      if i :| 0 <= i < |before| && before[i].originNode == n {
        assert after[i].originNode == n;
      }
    }
  }

  /** Whatever happened before and after, a read returns a node exactly when it is held as its graph is loaded. */
  lemma ReadReturnsHeld(states: seq<State>, steps: seq<Step>, r: nat, b: nat, l: nat, e: nat, n: NodeId)
    requires CalmRun(states, steps)
    requires b < l < e <= |steps| && steps[b] == ListGraphs(r) && steps[l] == LoadGraph(r, Named(GraphIri(n)))
    ensures r in states[e].readers
    ensures Contains(states[e].readers[r].loaded, n) <==> HoldsNode(states[l], n)
  {
    hide Next, Inv, GraphIri, ReadInv;
    CalmIsDisciplined(states, steps);
    ReadIsSafe(states, steps, r, b, l);
    CalmAt(states, steps, l);
    LoadBringsHeld(states, steps, r, b, l, n);
    OtherLoadsKeep(states, steps, r, l + 1, e, n);
  }

  /**
   A read returns a node that was cached when it began, and neither deleted nor given up meanwhile,
   exactly when no upsert of the node is in flight at the moment its graph is loaded.
   */
  lemma ReadReturnsExactly(states: seq<State>, steps: seq<Step>, r: nat, b: nat, l: nat, e: nat, n: NodeId)
    requires CalmRun(states, steps)
    requires b < l < e <= |steps| && steps[b] == ListGraphs(r) && steps[l] == LoadGraph(r, Named(GraphIri(n)))
    requires HoldsNode(states[b], n) && forall i :: b <= i < l ==> !Loses(states[i], steps[i], n)
    ensures r in states[e].readers
    ensures Contains(states[e].readers[r].loaded, n) <==> !InFlight(states[l], n)
  {
    hide Next, Inv, GraphIri, Loses, HoldsNode;
    ReadReturnsHeld(states, steps, r, b, l, e, n);
    CalmAt(states, steps, l);
    StillThereAt(states, steps, n, b, l);
  }

  lemma CalmIsDisciplined(states: seq<State>, steps: seq<Step>)
    requires CalmRun(states, steps)
    ensures forall i :: 0 <= i < |states| ==> Disciplined(states[i])
  {
  }

  /** A read that has loaded a graph it listed did so at one of its steps. */
  lemma {:induction false} LoadHappened(states: seq<State>, steps: seq<Step>, r: nat, b: nat, e: nat, g: GraphName) returns (l: nat)
    requires Run(states, steps) && b < e < |states| && r in states[b].readers && r in states[e].readers
    requires g in states[b].readers[r].pending && g !in states[e].readers[r].pending
    ensures b <= l < e && steps[l] == LoadGraph(r, g)
    decreases e
  {
    hide Loads;
    assert Next(states[e - 1], steps[e - 1], states[e]);
    if steps[e - 1] == LoadGraph(r, g) {
      l := e - 1;
    } else {
      StillReading(states, steps, r, b, e - 1);
      l := LoadHappened(states, steps, r, b, e - 1, g);
    }
  }

  lemma {:induction false} StillReading(states: seq<State>, steps: seq<Step>, r: nat, b: nat, e: nat)
    requires Run(states, steps) && b <= e < |states| && r in states[b].readers
    ensures r in states[e].readers
  {
    if b < e {
      StillReading(states, steps, r, b, e - 1);
      assert Next(states[e - 1], steps[e - 1], states[e]);
    }
  }

  /** The same of what a finished read returns: the deciding load always exists. */
  lemma FinishedReadReturnsExactly(states: seq<State>, steps: seq<Step>, r: nat, b: nat, e: nat, n: NodeId) returns (l: nat)
    requires CalmRun(states, steps)
    requires b < e <= |steps| && steps[b] == ListGraphs(r)
    requires r in states[e].readers && states[e].readers[r].pending == {}
    requires HoldsNode(states[b], n) && forall i :: b <= i < e ==> !Loses(states[i], steps[i], n)
    ensures b < l < e && steps[l] == LoadGraph(r, Named(GraphIri(n)))
    ensures Contains(Result(states[e], r), n) <==> !InFlight(states[l], n)
  {
    hide Next, GraphIri, Loses, CatalogCache.SortById, CatalogCache.SortedById;
    CalmIsDisciplined(states, steps);
    CalmAt(states, steps, b);
    ListingCovers(states, steps, r, b, n);
    l := LoadHappened(states, steps, r, b + 1, e, Named(GraphIri(n)));
    ReadReturnsExactly(states, steps, r, b, l, e, n);
    ReadIsSafe(states, steps, r, b, e);
    SortedLoads(states[e].readers[r].loaded);
    SameNodes(states[e].readers[r].loaded, Result(states[e], r), n);
  }

  lemma ListingCovers(states: seq<State>, steps: seq<Step>, r: nat, b: nat, n: NodeId)
    requires Run(states, steps) && b < |steps| && steps[b] == ListGraphs(r) && Inv(states[b]) && HoldsNode(states[b], n)
    ensures r in states[b + 1].readers && Named(GraphIri(n)) in states[b + 1].readers[r].pending
  {
    hide GraphIri;
    assert Next(states[b], steps[b], states[b + 1]);
  }

  lemma SameNodes(l: seq<Catalog>, sorted: seq<Catalog>, n: NodeId)
    requires forall c :: c in sorted <==> c in l
    ensures Contains(sorted, n) <==> Contains(l, n)
  {
    if i :| 0 <= i < |l| && l[i].originNode == n {
      assert l[i] in sorted;
    }
    if i :| 0 <= i < |sorted| && sorted[i].originNode == n {
      assert sorted[i] in l;
    }
  }
}
