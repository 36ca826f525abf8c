/** The steps of concurrent operations, taken without interruption, are the operations of the backend. */
module SequentialSteps {
  import opened CatalogCore
  import opened CatalogCache
  import opened QuadStore
  import opened ConcurrentCache
  import BackendRefinement
  import NodeIri

  /** The two steps of an upsert, one right after the other, are one upsert and leave everybody else alone. */
  lemma UninterruptedUpsert(s: State, w: nat, c: Catalog, mid: State, s': State)
    requires Next(s, BeginUpsert(w, c), mid) && Next(mid, FinishUpsert(w), s')
    ensures BackendRefinement.QuadStep(s.store, BackendRefinement.Upsert(c), s'.store, BackendRefinement.Done)
    ensures s'.writers == s.writers && s'.readers == s.readers
  {
    hide NodeIri.GraphIri;
    assert RemoveStep(s.store, NodeIri.GraphIri(c.originNode), mid.store) && InsertStep(mid.store, QuadFor(c), s'.store);
  }

  /** The step that removes a cached node is its deletion. */
  lemma RemovalIsDeletion(s: State, n: NodeId, s': State)
    requires Next(s, RemoveNode(n), s') && exists q :: q in s.store.quads && InOwnGraph(q, NodeIri.GraphIri(n))
    ensures BackendRefinement.QuadStep(s.store, BackendRefinement.Delete(n), s'.store, BackendRefinement.Deleted(true))
    ensures s'.writers == s.writers && s'.readers == s.readers
  {
  }

  ghost predicate OnlyLoads(steps: seq<Step>, r: nat, b: nat, e: nat) {
    b < e <= |steps| && steps[b] == ListGraphs(r) && forall i :: b < i < e ==> steps[i].LoadGraph? && steps[i].r == r
  }

  lemma {:induction false} LoadedSoFar(states: seq<State>, steps: seq<Step>, r: nat, b: nat, e: nat)
    returns (names: seq<GraphName>, loaded: seq<seq<Catalog>>)
    requires Run(states, steps) && OnlyLoads(steps, r, b, e)
    ensures states[e].store == states[b].store && r in states[e].readers
    ensures NoRepeats(names) && |loaded| == |names|
    ensures forall g :: g in names <==> g in states[b].store.graphs && g !in states[e].readers[r].pending
    ensures states[e].readers[r].pending <= states[b].store.graphs
    ensures forall i :: 0 <= i < |names| ==> Loads(states[b].store, names[i], loaded[i])
    ensures states[e].readers[r].loaded == Concat(loaded)
    decreases e
  {
    hide Loads;
    assert Next(states[e - 1], steps[e - 1], states[e]);
    if e == b + 1 {
      names, loaded := [], [];
    } else {
      names, loaded := LoadedSoFar(states, steps, r, b, e - 1);
      var g := steps[e - 1].graph;
      var l :| LoadedInto(states[e - 1], r, g, l, states[e]);
      assert (loaded + [l])[..|loaded|] == loaded;
      names, loaded := names + [g], loaded + [l];
    }
  }

  /** A listing and its loads, uninterrupted, are one query for everything. */
  lemma UninterruptedRead(states: seq<State>, steps: seq<Step>, r: nat, b: nat, e: nat)
    requires Run(states, steps) && OnlyLoads(steps, r, b, e)
    requires r in states[e].readers && states[e].readers[r].pending == {}
    ensures states[e].store == states[b].store
    ensures QueryStep(states[b].store, ALL, Result(states[e], r))
  {
    hide Loads, Next, SortById;
    var names, loaded := LoadedSoFar(states, steps, r, b, e);
    assert ListsAndLoads(states[b].store, names, loaded);
    assert Page(SortById(Concat(loaded)), ALL) == SortById(Concat(loaded));
  }
}
