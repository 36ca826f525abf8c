/**
 The Oxigraph-backed cache (`rdf-store`'s `oxigraph_backend` module) over a quad store whose every
 operation is atomic and may fail. A failed `upsert` may have removed the old entry already.
 */
module OxigraphCache {
  import opened Wrappers
  import opened CatalogCore
  import opened CatalogCache
  import opened QuadStore
  import NodeIri
  import BackendRefinement

  datatype StoreError = Backend(message: string)

  type StoreResult<+T> = Result<T, StoreError>

  const IO_ERROR := Backend("storage error")

  /** The assumed interface of the store: what each operation does when it succeeds. */
  class GraphStore {
    var state: StoreState

    constructor ()
      ensures state == StoreState({}, {})
    {
      state := StoreState({}, {});
    }

    method RemoveSubjectFromNamedGraph(iri: string) returns (r: StoreResult<()>)
      modifies this
      ensures r.Ok? ==> RemoveStep(old(state), iri, state)
      ensures r.Err? ==> state == old(state)
    {
      if * {
        return Err(IO_ERROR);
      }
      var kept := set q | q in state.quads && !InOwnGraph(q, iri);
      // an emptied graph may stay listed or not
      if * {
        state := StoreState(kept, state.graphs);
      } else {
        state := StoreState(kept, state.graphs - {Named(iri)});
      }
      r := Ok(());
    }

    method InsertInNamedGraph(quad: Quad) returns (r: StoreResult<()>)
      modifies this
      ensures r.Ok? ==> InsertStep(old(state), quad, state)
      ensures r.Err? ==> state == old(state)
    {
      if * {
        return Err(IO_ERROR);
      }
      state := StoreState(state.quads + {quad}, state.graphs + {Named(quad.graph)});
      r := Ok(());
    }

    method NamedGraphs() returns (r: StoreResult<set<GraphName>>)
      ensures r.Ok? ==> r.value == state.graphs
    {
      if * {
        return Err(IO_ERROR);
      }
      r := Ok(state.graphs);
    }

    method QuadsInOwnGraph(iri: string) returns (r: StoreResult<set<Quad>>)
      ensures r.Ok? ==> r.value == set q | q in state.quads && InOwnGraph(q, iri)
    {
      if * {
        return Err(IO_ERROR);
      }
      r := Ok(set q | q in state.quads && InOwnGraph(q, iri));
    }
  }

  class OxigraphCatalogCache {
    const store: GraphStore
    ghost var model: Store

    ghost predicate Valid()
      reads this, store
    {
      Represents(store.state, model)
    }

    constructor InMemory()
      ensures Valid() && fresh(store) && model == map[]
    {
      store := new GraphStore();
      model := map[];
    }

    method LoadGraph(graph: GraphName) returns (r: StoreResult<Option<Catalog>>)
      requires graph.Named?
      ensures r.Ok? ==> Loads(store.state, graph, if r.value.Some? then [r.value.value] else [])
    {
      var quads :- store.QuadsInOwnGraph(graph.iri);
      var matching := set q | q in quads && q.predicateIri == CATALOG_JSON_PREDICATE;
      if matching == {} {
        forall q | q in store.state.quads ensures !IsCatalogQuad(q, graph) {
          assert q !in matching;
        }
        return Ok(None);
      }
      var quad :| quad in matching;
      assert quad in store.state.quads && IsCatalogQuad(quad, graph);
      match quad.term {
        case CatalogLiteral(catalog) => r := Ok(Some(catalog));
        case OtherLiteral(_) => r := Err(Backend("failed to deserialize catalog"));
        case NamedTerm(_) => r := Err(Backend("expected a literal catalogJson object"));
      }
    }

    method Upsert(catalog: Catalog) returns (r: StoreResult<()>)
      requires Valid()
      modifies this`model, store
      ensures Valid()
      ensures r.Ok? ==>
        BackendRefinement.QuadStep(old(store.state), BackendRefinement.Upsert(catalog), store.state, BackendRefinement.Done)
      ensures r.Ok? ==> model == old(model)[catalog.originNode := catalog]
      ensures r.Err? ==> model == old(model) || model == old(model) - {catalog.originNode}
    {
      var iri := NodeIri.GraphIri(catalog.originNode);
      ghost var before := store.state;
      var removed := store.RemoveSubjectFromNamedGraph(iri);
      if removed.Err? {
        return removed;
      }
      ghost var mid := store.state;
      RemoveRefines(before, model, catalog.originNode, mid);
      model := model - {catalog.originNode};
      r := store.InsertInNamedGraph(QuadFor(catalog));
      if r.Ok? {
        UpsertRefines(before, old(model), catalog, mid, store.state);
        model := old(model)[catalog.originNode := catalog];
      }
    }

    method Query(q: CatalogQuery) returns (r: StoreResult<seq<Catalog>>)
      requires Valid()
      ensures r.Ok? ==> QueryStep(store.state, q, r.value) && Answers(model, q, r.value)
      ensures r.Ok? ==> AnswerSpelledOut(model, q, r.value)
    {
      var results: seq<Catalog> := [];
      match q.originNode {
        case Some(node) =>
          var loaded :- LoadGraph(Named(NodeIri.GraphIri(node)));
          if loaded.Some? {
            results := [loaded.value];
          }
        case None =>
          results :- LoadAll();
      }
      r := Ok(Page(SortById(results), q));
      QueryRefines(store.state, model, q, r.value);
      AnswersExactly(model, q, r.value);
    }

    method LoadAll() returns (r: StoreResult<seq<Catalog>>)
      ensures r.Ok? ==> exists names, loaded :: ListsAndLoads(store.state, names, loaded) && r.value == Concat(loaded)
    {
      var results: seq<Catalog> := [];
      var pending :- store.NamedGraphs();
      ghost var names: seq<GraphName>, loaded: seq<seq<Catalog>> := [], [];
      while pending != {}
        invariant pending <= store.state.graphs
        invariant NoRepeats(names) && |loaded| == |names|
        invariant forall g :: g in names <==> g in store.state.graphs && g !in pending
        invariant forall i :: 0 <= i < |names| ==> Loads(store.state, names[i], loaded[i])
        invariant results == Concat(loaded)
        decreases pending
      {
        var graph :| graph in pending;
        pending := pending - {graph};
        ghost var entry: seq<Catalog> := [];
        if graph.Named? {
          var catalog :- LoadGraph(graph);
          if catalog.Some? {
            results := results + [catalog.value];
            entry := [catalog.value];
          }
        }
        assert (loaded + [entry])[..|loaded|] == loaded;
        names, loaded := names + [graph], loaded + [entry];
      }
      assert ListsAndLoads(store.state, names, loaded);
      r := Ok(results);
    }

    method Delete(node: NodeId) returns (r: StoreResult<bool>)
      requires Valid()
      modifies this`model, store
      ensures Valid()
      ensures r.Ok? ==>
        BackendRefinement.QuadStep(
          old(store.state), BackendRefinement.Delete(node), store.state, BackendRefinement.Deleted(r.value))
      ensures r.Ok? ==> (r.value <==> node in old(model)) && model == old(model) - {node}
      ensures r.Err? ==> model == old(model)
    {
      hide Represents, NodeIri.GraphIri;
      var iri := NodeIri.GraphIri(node);
      SubjectPresent(store.state, model, node);
      var quads :- store.QuadsInOwnGraph(iri);
      var existed := quads != {};
      assert existed <==> exists q :: q in store.state.quads && InOwnGraph(q, iri) by {
        assert forall q :: q in quads <==> q in store.state.quads && InOwnGraph(q, iri);
      }
      if existed {
        ghost var before := store.state;
        var removed := store.RemoveSubjectFromNamedGraph(iri);
        if removed.Err? {
          return Err(removed.error);
        }
        RemoveRefines(before, model, node, store.state);
      }
      model := model - {node};
      assert existed || model == old(model);
      assert Represents(store.state, model);
      r := Ok(existed);
    }
  }
}
