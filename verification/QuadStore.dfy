/**
 The quads behind the Oxigraph cache: one graph per node holding one quad, written by a removal and
 an insertion, read by listing the graphs and loading each. Emptied graphs may stay listed.
 */
module QuadStore {
  import opened Wrappers
  import opened CatalogCore
  import opened CatalogCache
  import opened NodeIri

  const CATALOG_JSON_PREDICATE := "https://federated-catalog-rs.internal/ns#catalogJson"

  /** A literal that decodes to a catalog, any other literal, or a term that is no literal. */
  datatype Term = CatalogLiteral(catalog: Catalog) | OtherLiteral(text: string) | NamedTerm(iri: string)

  datatype Quad = Quad(subject: string, predicateIri: string, term: Term, graph: string)

  datatype GraphName = Named(iri: string) | Blank(blankId: string)

  datatype StoreState = StoreState(quads: set<Quad>, graphs: set<GraphName>)

  function QuadFor(c: Catalog): Quad {
    Quad(GraphIri(c.originNode), CATALOG_JSON_PREDICATE, CatalogLiteral(c), GraphIri(c.originNode))
  }

  /** One quad per catalog, in the graph of its node, with the graph's name as subject. */
  lemma QuadIs(c: Catalog)
    ensures QuadFor(c) == Quad(
      GraphIri(c.originNode), "https://federated-catalog-rs.internal/ns#catalogJson", CatalogLiteral(c), GraphIri(c.originNode))
  {
  }

  // ---------------------------------------------------------------- atomic store operations

  predicate InOwnGraph(q: Quad, iri: string) {
    q.subject == iri && q.graph == iri
  }

  /** `remove_subject_from_named_graph(iri, iri)`; only the emptied graph may leave the listing. */
  ghost predicate RemoveStep(s: StoreState, iri: string, s': StoreState) {
    && (forall q :: q in s'.quads <==> q in s.quads && !InOwnGraph(q, iri))
    && s'.graphs <= s.graphs
    && (forall g :: g in s.graphs && g != Named(iri) ==> g in s'.graphs)
  }

  /** `insert_in_named_graph`. */
  ghost predicate InsertStep(s: StoreState, q: Quad, s': StoreState) {
    s' == StoreState(s.quads + {q}, s.graphs + {Named(q.graph)})
  }

  predicate IsCatalogQuad(q: Quad, g: GraphName) {
    g.Named? && InOwnGraph(q, g.iri) && q.predicateIri == CATALOG_JSON_PREDICATE
  }

  /** A successful `load_graph`: the catalog of some matching quad, nothing when there is none. */
  ghost predicate Loads(s: StoreState, g: GraphName, r: seq<Catalog>) {
    || (r == [] && forall q :: q in s.quads ==> !IsCatalogQuad(q, g))
    || (|r| == 1 && exists q :: q in s.quads && IsCatalogQuad(q, g) && q.term == CatalogLiteral(r[0]))
  }

  // ---------------------------------------------------------------- representation

  predicate Represented(q: Quad, m: Store) {
    && q.term.CatalogLiteral?
    && q == QuadFor(q.term.catalog)
    && q.term.catalog.originNode in m
    && m[q.term.catalog.originNode] == q.term.catalog
  }

  /** The store holds exactly one quad per entry of `m`, each in a listed graph; more graphs may be listed. */
  ghost predicate Represents(s: StoreState, m: Store) {
    && KeyedByOrigin(m)
    && (forall q :: q in s.quads <==> Represented(q, m))
    && (forall n :: n in m ==> Named(GraphIri(n)) in s.graphs)
  }

  lemma EntryHasQuad(s: StoreState, m: Store, n: NodeId)
    requires Represents(s, m) && n in m
    ensures QuadFor(m[n]) in s.quads
  {
    assert Represented(QuadFor(m[n]), m);
  }

  lemma RemoveRefines(s: StoreState, m: Store, n: NodeId, s': StoreState)
    requires Represents(s, m) && RemoveStep(s, GraphIri(n), s')
    ensures Represents(s', m - {n})
  {
    forall q ensures q in s'.quads <==> Represented(q, m - {n}) {
      if Represented(q, m) && q.graph == GraphIri(n) {
        GraphIriInjective(q.term.catalog.originNode, n);
      }
    }
    forall k | k in m - {n} ensures Named(GraphIri(k)) in s'.graphs {
      if GraphIri(k) == GraphIri(n) { GraphIriInjective(k, n); }
    }
  }

  lemma InsertRefines(s: StoreState, m: Store, c: Catalog, s': StoreState)
    requires Represents(s, m) && c.originNode !in m && InsertStep(s, QuadFor(c), s')
    ensures Represents(s', m[c.originNode := c])
  {
    var m' := m[c.originNode := c];
    forall q ensures q in s'.quads <==> Represented(q, m') {
      if Represented(q, m') && q.term.catalog.originNode != c.originNode { assert Represented(q, m); }
    }
  }

  /** `upsert`: the quads of the replaced entry go first, so the graph never holds two. */
  lemma UpsertRefines(s: StoreState, m: Store, c: Catalog, mid: StoreState, s': StoreState)
    requires Represents(s, m)
    requires RemoveStep(s, GraphIri(c.originNode), mid) && InsertStep(mid, QuadFor(c), s')
    ensures Represents(mid, m - {c.originNode})
    ensures Represents(s', m[c.originNode := c])
  {
    RemoveRefines(s, m, c.originNode, mid);
    InsertRefines(mid, m - {c.originNode}, c, s');
    assert (m - {c.originNode})[c.originNode := c] == m[c.originNode := c];
  }

  /** `has_subject` answers whether the node is cached. */
  lemma SubjectPresent(s: StoreState, m: Store, n: NodeId)
    requires Represents(s, m)
    ensures (exists q :: q in s.quads && InOwnGraph(q, GraphIri(n))) <==> n in m
  {
    if n in m {
      EntryHasQuad(s, m, n);
      assert InOwnGraph(QuadFor(m[n]), GraphIri(n));
    }
    if q :| q in s.quads && InOwnGraph(q, GraphIri(n)) {
      GraphIriInjective(q.term.catalog.originNode, n);
    }
  }

  /** The part of `m` whose graphs are among `names`. */
  function InGraphs(m: Store, names: seq<GraphName>): Store {
    map n | n in m && Named(GraphIri(n)) in names :: m[n]
  }

  lemma LoadedIsEntry(s: StoreState, m: Store, g: GraphName, c: Catalog)
    requires Represents(s, m) && Loads(s, g, [c])
    ensures g == Named(GraphIri(c.originNode)) && c.originNode in m && m[c.originNode] == c
  {
    var q :| q in s.quads && IsCatalogQuad(q, g) && q.term == CatalogLiteral(c);
    assert Represented(q, m);
  }

  lemma EntryIsLoaded(s: StoreState, m: Store, n: NodeId, r: seq<Catalog>)
    requires Represents(s, m) && n in m && Loads(s, Named(GraphIri(n)), r)
    ensures r == [m[n]]
  {
    EntryHasQuad(s, m, n);
    assert IsCatalogQuad(QuadFor(m[n]), Named(GraphIri(n)));
    assert |r| == 1 && r == [r[0]];
    LoadedIsEntry(s, m, Named(GraphIri(n)), r[0]);
    GraphIriInjective(r[0].originNode, n);
  }

  lemma LoadsEntry(s: StoreState, m: Store, g: GraphName, r: seq<Catalog>)
    requires Represents(s, m) && Loads(s, g, r)
    ensures Lists(InGraphs(m, [g]), r)
  {
    hide Represents, Loads, GraphIri;
    assert |r| <= 1 by { LoadsAtMostOne(s, g, r); }
    forall c ensures c in r <==> c.originNode in InGraphs(m, [g]) && m[c.originNode] == c {
      if c in r {
        assert r == [c];
        LoadedIsEntry(s, m, g, c);
      }
      if c.originNode in InGraphs(m, [g]) && m[c.originNode] == c {
        EntryIsLoaded(s, m, c.originNode, r);
      }
    }
  }

  lemma LoadsAtMostOne(s: StoreState, g: GraphName, r: seq<Catalog>)
    requires Loads(s, g, r)
    ensures |r| <= 1
  {
  }

  function Concat(loaded: seq<seq<Catalog>>): seq<Catalog> {
    if loaded == [] then [] else Concat(loaded[..|loaded| - 1]) + loaded[|loaded| - 1]
  }

  ghost predicate NoRepeats<T>(names: seq<T>) {
    forall i, j :: 0 <= i < j < |names| ==> names[i] != names[j]
  }

  /** Loading graph after graph lists exactly the entries whose graphs were visited. */
  lemma {:induction false} LoadsList(s: StoreState, m: Store, names: seq<GraphName>, loaded: seq<seq<Catalog>>)
    requires Represents(s, m) && NoRepeats(names) && |loaded| == |names|
    requires forall i :: 0 <= i < |names| ==> Loads(s, names[i], loaded[i])
    ensures Lists(InGraphs(m, names), Concat(loaded))
  {
    if names != [] {
      var front, g := names[..|names| - 1], names[|names| - 1];
      var before, last := Concat(loaded[..|loaded| - 1]), loaded[|loaded| - 1];
      LoadsList(s, m, front, loaded[..|loaded| - 1]);
      LoadsEntry(s, m, g, last);
      assert names == front + [g];
      JoinListings(m, front, g, before, last);
    }
  }

  lemma JoinListings(m: Store, front: seq<GraphName>, g: GraphName, before: seq<Catalog>, last: seq<Catalog>)
    requires g !in front
    requires Lists(InGraphs(m, front), before) && Lists(InGraphs(m, [g]), last)
    ensures Lists(InGraphs(m, front + [g]), before + last)
  {
    var r := before + last;
    forall c ensures c in r <==> c.originNode in InGraphs(m, front + [g]) && m[c.originNode] == c {
      assert c in r <==> c in before || c in last;
    }
    forall i, j | 0 <= i < j < |r| ensures r[i].originNode != r[j].originNode {
      if i < |before| <= j {
        assert r[i] in before && r[j] in last;
      }
    }
  }

  /** What a successful `query` returns, run on one state: list the graphs, load each, sort, page. */
  ghost predicate QueryStep(s: StoreState, q: CatalogQuery, r: seq<Catalog>) {
    match q.originNode
    case Some(n) => exists l :: Loads(s, Named(GraphIri(n)), l) && r == Page(SortById(l), q)
    case None => exists names, loaded :: ListsAndLoads(s, names, loaded) && r == Page(SortById(Concat(loaded)), q)
  }

  ghost predicate ListsAndLoads(s: StoreState, names: seq<GraphName>, loaded: seq<seq<Catalog>>) {
    && NoRepeats(names)
    && (forall g :: g in names <==> g in s.graphs)
    && |loaded| == |names|
    && (forall i :: 0 <= i < |names| ==> Loads(s, names[i], loaded[i]))
  }

  lemma ListedIsAnswer(m: Store, q: CatalogQuery, l: seq<Catalog>)
    requires Lists(Matching(m, q), l)
    ensures Answers(m, q, Page(SortById(l), q))
  {
    ListingSorted(Matching(m, q), l);
  }

  lemma OneGraphMatches(m: Store, q: CatalogQuery, n: NodeId)
    requires KeyedByOrigin(m) && q.originNode == Some(n)
    ensures InGraphs(m, [Named(GraphIri(n))]) == Matching(m, q)
  {
    hide GraphIri;
    forall k | k in m && GraphIri(k) == GraphIri(n) ensures k == n { GraphIriInjective(k, n); }
  }

  lemma AllGraphsMatch(s: StoreState, m: Store, q: CatalogQuery, names: seq<GraphName>)
    requires Represents(s, m) && q.originNode.None?
    requires forall g :: g in names <==> g in s.graphs
    ensures InGraphs(m, names) == Matching(m, q)
  {
  }

  /** However many emptied graphs stay listed, a query answers as the map would. */
  lemma QueryRefines(s: StoreState, m: Store, q: CatalogQuery, r: seq<Catalog>)
    requires Represents(s, m) && QueryStep(s, q, r)
    ensures Answers(m, q, r)
  {
    hide Loads, Lists, Matching, InGraphs, Answers, GraphIri, Page, SortById;
    match q.originNode {
      case Some(n) =>
        var l :| Loads(s, Named(GraphIri(n)), l) && r == Page(SortById(l), q);
        LoadsEntry(s, m, Named(GraphIri(n)), l);
        OneGraphMatches(m, q, n);
        ListedIsAnswer(m, q, l);
      case None =>
        var names, loaded :| ListsAndLoads(s, names, loaded) && r == Page(SortById(Concat(loaded)), q);
        LoadsList(s, m, names, loaded);
        AllGraphsMatch(s, m, q, names);
        ListedIsAnswer(m, q, Concat(loaded));
    }
  }
}
