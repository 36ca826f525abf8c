/** The in-process cache: one map, replaced entry by entry (`rdf-store`'s `memory` module). */
module MemoryCache {
  import opened CatalogCache
  import opened BackendRefinement
  import CatalogCore

  class InMemoryCatalogCache {
    var graphs: Store

    ghost predicate Valid()
      reads this
    {
      KeyedByOrigin(graphs)
    }

    constructor ()
      ensures Valid() && graphs == map[]
    {
      graphs := map[];
    }

    method Upsert(catalog: CatalogCore.Catalog)
      requires Valid()
      modifies this
      ensures Valid() && graphs == StoreAfter(old(graphs), BackendRefinement.Upsert(catalog))
    {
      graphs := graphs[catalog.originNode := catalog];
    }

    /** The map is iterated in an order of its own; the answer is sorted by catalog id, then paged. */
    method Query(q: CatalogQuery) returns (r: seq<CatalogCore.Catalog>)
      requires Valid()
      ensures AnswerSpelledOut(graphs, q, r)
      ensures Answers(graphs, q, r) && MayReply(graphs, BackendRefinement.Query(q), Listed(r))
    {
      var results: seq<CatalogCore.Catalog> := [];
      var pending := graphs.Keys;
      while pending != {}
        invariant pending <= graphs.Keys
        invariant Lists(map n | n in graphs && n !in pending && Matches(q, graphs[n]) :: graphs[n], results)
        decreases pending
      {
        var n :| n in pending;
        pending := pending - {n};
        if Matches(q, graphs[n]) {
          results := results + [graphs[n]];
        }
      }
      assert Matching(graphs, q) == map n | n in graphs && n !in pending && Matches(q, graphs[n]) :: graphs[n];
      ListingSorted(Matching(graphs, q), results);
      r := Page(SortById(results), q);
      AnswersExactly(graphs, q, r);
    }

    method Delete(node: CatalogCore.NodeId) returns (removed: bool)
      requires Valid()
      modifies this
      ensures Valid() && graphs == StoreAfter(old(graphs), BackendRefinement.Delete(node))
      ensures MayReply(old(graphs), BackendRefinement.Delete(node), Deleted(removed))
    {
      removed := node in graphs;
      graphs := graphs - {node};
    }
  }
}
