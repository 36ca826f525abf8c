/** Consequences of the wire round trip for what a broker re-serves, looks up and reveals. */
module ResponseProperties {
  import opened Wrappers
  import opened Json
  import opened Seqs
  import opened CatalogCore
  import opened CatalogParser
  import opened ParserProperties
  import opened DspApi
  import opened WireRoundTrip

  // ---------------------------------------------------------------- normal form

  /** Crawling the unfiltered response of a broker whose only cached node holds `c`. */
  function Recrawled(c: Catalog, uuids: FreshIds, node: NodeId, freshId: string): Catalog {
    ParsedCatalog(CatalogJson(CatalogDocument(None, [c], uuids)), node, freshId)
  }

  lemma {:induction false} NothingFiltered(datasets: seq<Dataset>)
    ensures VisibleDatasets(None, datasets) == datasets
  {
    if datasets != [] {
      NothingFiltered(datasets[..|datasets| - 1]);
    }
  }

  lemma {:induction false} DistinctServicesStay(services: seq<DataService>)
    requires DistinctIds(services)
    ensures AddAll([], services) == services
  {
    if services != [] {
      var front, last := services[..|services| - 1], services[|services| - 1];
      DistinctServicesStay(front);
      assert !HasService(front, last.id);
    }
  }

  lemma {:induction false} KeptHaveNoProperties(entries: seq<Json>)
    ensures Map(Erase, FlatMap(KeptDataset, entries)) == FlatMap(KeptDataset, entries)
  {
    if entries != [] {
      KeptHaveNoProperties(entries[..|entries| - 1]);
    }
  }

  lemma {:induction false} LevelsHaveNoProperties(levels: seq<Json>)
    ensures Map(Erase, FlatMap(LevelDatasets, levels)) == FlatMap(LevelDatasets, levels)
  {
    if levels != [] {
      LevelsHaveNoProperties(levels[..|levels| - 1]);
      KeptHaveNoProperties(Entries(levels[|levels| - 1], "dataset"));
    }
  }

  lemma RecrawledLists(c: Catalog, uuids: FreshIds, node: NodeId, freshId: string)
    ensures Recrawled(c, uuids, node, freshId).datasets == Map(Erase, c.datasets)
    ensures Recrawled(c, uuids, node, freshId).dataServices == AddAll([], Map(EraseDescription, c.dataServices))
  {
    ResponseRoundTrip(None, [c], uuids, node, freshId);
    FlatMapOne(DatasetsIn, c);
    FlatMapOne(ServicesIn, c);
    NothingFiltered(c.datasets);
  }

  lemma ParsedIsClean(v: Json, node: NodeId, freshId: string)
    ensures Map(Erase, ParsedCatalog(v, node, freshId).datasets) == ParsedCatalog(v, node, freshId).datasets
    ensures DistinctIds(ParsedCatalog(v, node, freshId).dataServices)
  {
    LevelsHaveNoProperties(Levels(v));
    FirstMentionWins(MentionsOf(v));
  }

  lemma CleanIsReproduced(c: Catalog, uuids: FreshIds, node: NodeId, freshId: string)
    requires Map(Erase, c.datasets) == c.datasets && DistinctIds(c.dataServices)
    ensures Recrawled(c, uuids, node, freshId).datasets == c.datasets
    ensures Recrawled(c, uuids, node, freshId).dataServices == Map(EraseDescription, c.dataServices)
  {
    RecrawledLists(c, uuids, node, freshId);
    DistinctServicesStay(Map(EraseDescription, c.dataServices));
  }

  /**
   Parse, serve, parse: whatever JSON was parsed first, the second parse has the same datasets and the
   same services without their endpoint descriptions; from then on nothing changes any more.
   */
  lemma ParserNormalForm(v: Json, u1: FreshIds, u2: FreshIds, n0: NodeId, n1: NodeId, n2: NodeId, f0: string, f1: string, f2: string)
    ensures
      var first := ParsedCatalog(v, n0, f0);
      var second := Recrawled(first, u1, n1, f1);
      var third := Recrawled(second, u2, n2, f2);
      && second.datasets == first.datasets
      && second.dataServices == Map(EraseDescription, first.dataServices)
      && third.datasets == second.datasets
      && third.dataServices == second.dataServices
  {
    var first := ParsedCatalog(v, n0, f0);
    var second := Recrawled(first, u1, n1, f1);
    ParsedIsClean(v, n0, f0);
    CleanIsReproduced(first, u1, n1, f1);
    CleanIsReproduced(second, u2, n2, f2);
    assert Map(EraseDescription, second.dataServices) == second.dataServices;
  }

  /** What a catalog must look like for a re-crawl to reproduce its contents. */
  ghost predicate WireStable(c: Catalog) {
    && (forall i :: 0 <= i < |c.datasets| ==> c.datasets[i].properties == map[])
    && DistinctIds(c.dataServices)
    && (forall i :: 0 <= i < |c.dataServices| ==> c.dataServices[i].endpointDescription == None)
  }

  lemma ErasedWhenEmpty(datasets: seq<Dataset>)
    ensures Map(Erase, datasets) == datasets <==> forall i :: 0 <= i < |datasets| ==> datasets[i].properties == map[]
  {
    if Map(Erase, datasets) == datasets {
      forall i | 0 <= i < |datasets| ensures datasets[i].properties == map[] {
        assert Map(Erase, datasets)[i] == datasets[i];
      }
    }
  }

  lemma ServicesReproduced(services: seq<DataService>)
    ensures AddAll([], Map(EraseDescription, services)) == services <==>
            DistinctIds(services) && forall i :: 0 <= i < |services| ==> services[i].endpointDescription == None
  {
    var mentions := Map(EraseDescription, services);
    FirstMentionWins(mentions);
    if AddAll([], mentions) == services {
      forall i | 0 <= i < |services| ensures services[i].endpointDescription == None {
        assert services[i] in AddAll([], mentions);
        var k :| FirstMentionAt(mentions, services[i], k);
      }
    }
    if DistinctIds(services) && forall i :: 0 <= i < |services| ==> services[i].endpointDescription == None {
      assert mentions == services;
      DistinctServicesStay(mentions);
    }
  }

  /** A re-crawl reproduces exactly the catalogs without properties, descriptions and repeated service ids. */
  lemma ReproducedExactly(c: Catalog, uuids: FreshIds, node: NodeId, freshId: string)
    ensures
      var again := Recrawled(c, uuids, node, freshId);
      again.datasets == c.datasets && again.dataServices == c.dataServices <==> WireStable(c)
  {
    hide Recrawled, AddAll;
    RecrawledLists(c, uuids, node, freshId);
    ErasedWhenEmpty(c.datasets);
    ServicesReproduced(c.dataServices);
  }

  // ---------------------------------------------------------------- listing and lookup

  lemma {:induction false} FindsFirst(datasets: seq<Dataset>, id: string)
    ensures FindDataset(datasets, id).None? ==> forall j :: 0 <= j < |datasets| ==> datasets[j].id != id
    ensures FindDataset(datasets, id).Some? ==>
      exists k :: 0 <= k < |datasets| && datasets[k] == FindDataset(datasets, id).value && datasets[k].id == id &&
                  forall j :: 0 <= j < k ==> datasets[j].id != id
  {
    if datasets != [] && datasets[0].id != id {
      FindsFirst(datasets[1..], id);
      if FindDataset(datasets, id).Some? {
        var k :| 0 <= k < |datasets| - 1 && datasets[1..][k] == FindDataset(datasets, id).value && datasets[1..][k].id == id &&
                 forall j :: 0 <= j < k ==> datasets[1..][j].id != id;
        forall j | 0 <= j < k + 1 ensures datasets[j].id != id {
          if j > 0 { assert datasets[j] == datasets[1..][j - 1]; }
        }
        assert datasets[k + 1] == datasets[1..][k];
      } else {
        forall j | 0 <= j < |datasets| ensures datasets[j].id != id {
          if j > 0 { assert datasets[j] == datasets[1..][j - 1]; }
        }
      }
    }
  }

  ghost predicate FirstListed(listed: seq<DspDataset>, id: string, k: int) {
    0 <= k < |listed| && listed[k].id == id && forall j :: 0 <= j < k ==> listed[j].id != id
  }

  /** The listed dataset says of `d` what the wire can say, and has no context of its own. */
  ghost predicate Presents(listed: DspDataset, d: Dataset) {
    && listed.id == d.id
    && listed.distribution == Map(FromDistribution, d.distributions)
    && listed.context == None
  }

  lemma PresentsErased(listed: DspDataset, d: Dataset)
    requires ToDataset(listed) == Erase(d) && listed.context == None
    ensures Presents(listed, d)
  {
    assert Map(ToDistribution, listed.distribution) == d.distributions;
    forall i | 0 <= i < |listed.distribution| ensures listed.distribution[i] == FromDistribution(d.distributions[i]) {
      assert Map(ToDistribution, listed.distribution)[i] == d.distributions[i];
    }
  }

  /** A document lists the visible datasets, in order. */
  lemma ListedPresentsVisible(allowed: AllowList, catalogs: seq<Catalog>, uuids: FreshIds)
    ensures
      var listed, visible := DocumentDatasets(CatalogDocument(allowed, catalogs, uuids)), VisibleAll(allowed, catalogs);
      |listed| == |visible| && forall k :: 0 <= k < |listed| ==> Presents(listed[k], visible[k])
  {
    hide Presents, DocumentDatasets, CatalogDocument, VisibleDatasets, FlatMap, ToDataset, Erase;
    var listed, visible := DocumentDatasets(CatalogDocument(allowed, catalogs, uuids)), VisibleAll(allowed, catalogs);
    ResponseLists(allowed, catalogs, uuids);
    NoContextInside(allowed, catalogs, uuids);
    var onWire, erased := Map(ToDataset, listed), Map(Erase, visible);
    assert onWire == erased;
    assert |listed| == |onWire| == |erased| == |visible|;
    forall k | 0 <= k < |listed| ensures Presents(listed[k], visible[k]) {
      assert onWire[k] == erased[k];
      PresentsErased(listed[k], visible[k]);
    }
  }

  /**
   Listing and lookup agree for every cache content and caller: an id is somewhere in the catalog document
   exactly when the lookup answers, and the answer is the first dataset of that id in document order.
   */
  lemma ListingMatchesLookup(allowed: AllowList, catalogs: seq<Catalog>, uuids: FreshIds, id: string, offerId: string)
    ensures
      var listed := DocumentDatasets(CatalogDocument(allowed, catalogs, uuids));
      var found := DatasetDocument(allowed, catalogs, id, offerId);
      && (found.None? <==> forall k :: 0 <= k < |listed| ==> listed[k].id != id)
      && (found.Some? ==>
            exists k :: FirstListed(listed, id, k) &&
                        found.value == listed[k].(offerId := offerId, context := Some([DSP_CONTEXT_URL])))
  {
    hide DocumentDatasets, CatalogDocument, VisibleDatasets, FlatMap, FindDataset;
    var listed := DocumentDatasets(CatalogDocument(allowed, catalogs, uuids));
    var visible := VisibleDatasets(allowed, FlatMap(DatasetsIn, catalogs));
    ListedPresentsVisible(allowed, catalogs, uuids);
    FindsFirst(visible, id);
    if FindDataset(visible, id).Some? {
      var k :| 0 <= k < |visible| && visible[k] == FindDataset(visible, id).value && visible[k].id == id &&
               forall j :: 0 <= j < k ==> visible[j].id != id;
      assert FirstListed(listed, id, k);
    }
  }

  ghost predicate NoContext(datasets: seq<DspDataset>) {
    forall i :: 0 <= i < |datasets| ==> datasets[i].context == None
  }

  /** Only the document of a single dataset carries a context of its own. */
  lemma NoContextInside(allowed: AllowList, catalogs: seq<Catalog>, uuids: FreshIds)
    ensures NoContext(DocumentDatasets(CatalogDocument(allowed, catalogs, uuids)))
  {
    hide RenderDatasets, VisibleDatasets, NodeDocuments, EmittedNodes, FlatMap;
    var doc := CatalogDocument(allowed, catalogs, uuids);
    FlatMapOne(DatasetField, doc);
    RenderedWithoutContext(VisibleDatasets(allowed, FlatMap(DatasetsIn, catalogs)), 0, uuids);
    if doc.catalog == [] {
      assert DocumentDatasets(doc) == doc.dataset;
    } else {
      FlatMapAppend(DatasetField, [doc], NestedDocumentLevels(doc.catalog));
      NodesHaveNoContext(allowed, EmittedNodes(allowed, catalogs), uuids);
      assert DocumentDatasets(doc) == FlatMap(DatasetField, NestedDocumentLevels(doc.catalog));
    }
  }

  lemma RenderedWithoutContext(datasets: seq<Dataset>, node: nat, uuids: FreshIds)
    ensures NoContext(RenderDatasets(datasets, node, uuids))
  {
    var r := RenderDatasets(datasets, node, uuids);
    forall j | 0 <= j < |r| ensures r[j].context == None {
      assert r[j] == FromDataset(datasets[j], uuids(Offer(node, j)));
    }
  }

  lemma NodeDatasetsStep(allowed: AllowList, front: seq<Catalog>, last: Catalog, uuids: FreshIds)
    ensures FlatMap(DatasetField, NestedDocumentLevels(NodeDocuments(allowed, front + [last], uuids)))
         == FlatMap(DatasetField, NestedDocumentLevels(NodeDocuments(allowed, front, uuids)))
            + RenderDatasets(VisibleDatasets(allowed, last.datasets), |front|, uuids)
  {
    hide RenderDatasets, VisibleDatasets, FlatMap, NestedDocumentLevels;
    var docs, doc := NodeDocuments(allowed, front, uuids), NodeDocument(allowed, last, |front|, uuids);
    assert (front + [last])[..|front|] == front;
    OneMoreLevel(docs, doc);
    FlatMapAppend(DatasetField, NestedDocumentLevels(docs), [doc]);
    FlatMapOne(DatasetField, doc);
  }

  lemma {:induction false} NodesHaveNoContext(allowed: AllowList, emitted: seq<Catalog>, uuids: FreshIds)
    ensures NoContext(FlatMap(DatasetField, NestedDocumentLevels(NodeDocuments(allowed, emitted, uuids))))
  {
    if emitted != [] {
      hide RenderDatasets, VisibleDatasets, FlatMap, NestedDocumentLevels, NodeDocuments, NoContext;
      var front, last := emitted[..|emitted| - 1], emitted[|emitted| - 1];
      assert emitted == front + [last];
      NodesHaveNoContext(allowed, front, uuids);
      RenderedWithoutContext(VisibleDatasets(allowed, last.datasets), |front|, uuids);
      NodeDatasetsStep(allowed, front, last, uuids);
      NoContextAppend(
        FlatMap(DatasetField, NestedDocumentLevels(NodeDocuments(allowed, front, uuids))),
        RenderDatasets(VisibleDatasets(allowed, last.datasets), |front|, uuids));
    }
  }

  lemma NoContextAppend(a: seq<DspDataset>, b: seq<DspDataset>)
    requires NoContext(a) && NoContext(b)
    ensures NoContext(a + b)
  {
  }

  // ---------------------------------------------------------------- what a nested response reveals

  /** What a caller may learn of one node: who it is, its visible datasets and its services. */
  datatype NodeView = NodeView(participantId: string, datasets: seq<Dataset>, services: seq<DataService>)

  function ViewOf(allowed: AllowList, c: Catalog): NodeView {
    NodeView(
      c.participantId.GetOr(c.originNode),
      Map(Erase, VisibleDatasets(allowed, c.datasets)),
      Map(EraseDescription, c.dataServices))
  }

  function Views(allowed: AllowList, nodes: seq<Catalog>): seq<NodeView> {
    seq(|nodes|, i requires 0 <= i < |nodes| => ViewOf(allowed, nodes[i]))
  }

  function ViewInDocument(doc: DspCatalog): NodeView {
    NodeView(doc.participantId, Map(ToDataset, doc.dataset), Map(ToDataService, doc.service))
  }

  function DocumentOfView(view: NodeView, node: nat, uuids: FreshIds): DspCatalog {
    DspCatalog(
      uuids(Nested(node)), view.participantId, RenderDatasets(view.datasets, node, uuids), Map(FromDataService, view.services), [])
  }

  lemma ErasingShowsTheSame(visible: seq<Dataset>, node: nat, services: seq<DataService>, uuids: FreshIds)
    ensures RenderDatasets(visible, node, uuids) == RenderDatasets(Map(Erase, visible), node, uuids)
    ensures Map(ToDataset, RenderDatasets(visible, node, uuids)) == Map(Erase, visible)
    ensures Map(FromDataService, services) == Map(FromDataService, Map(EraseDescription, services))
    ensures Map(ToDataService, Map(FromDataService, services)) == Map(EraseDescription, services)
  {
    forall j | 0 <= j < |visible|
      ensures RenderDatasets(visible, node, uuids)[j] == RenderDatasets(Map(Erase, visible), node, uuids)[j]
    {
      var slot := Offer(node, j);
      assert RenderDatasets(visible, node, uuids)[j] == FromDataset(visible[j], uuids(slot));
      assert RenderDatasets(Map(Erase, visible), node, uuids)[j] == FromDataset(Map(Erase, visible)[j], uuids(slot));
    }
    RenderedDatasets(visible, node, uuids);
  }

  lemma NodeDocumentIsItsView(allowed: AllowList, c: Catalog, node: nat, uuids: FreshIds)
    ensures NodeDocument(allowed, c, node, uuids) == DocumentOfView(ViewOf(allowed, c), node, uuids)
    ensures ViewInDocument(NodeDocument(allowed, c, node, uuids)) == ViewOf(allowed, c)
  {
    ErasingShowsTheSame(VisibleDatasets(allowed, c.datasets), node, c.dataServices, uuids);
  }

  lemma {:induction false} NodeDocumentsAreTheirViews(allowed: AllowList, emitted: seq<Catalog>, uuids: FreshIds)
    ensures |NodeDocuments(allowed, emitted, uuids)| == |emitted|
    ensures forall i :: 0 <= i < |emitted| ==>
      && NodeDocuments(allowed, emitted, uuids)[i] == DocumentOfView(Views(allowed, emitted)[i], i, uuids)
      && ViewInDocument(NodeDocuments(allowed, emitted, uuids)[i]) == Views(allowed, emitted)[i]
  {
    if emitted != [] {
      var front := emitted[..|emitted| - 1];
      NodeDocumentsAreTheirViews(allowed, front, uuids);
      NodeDocumentIsItsView(allowed, emitted[|front|], |front|, uuids);
      forall i | 0 <= i < |front| ensures Views(allowed, emitted)[i] == Views(allowed, front)[i] {
        assert emitted[i] == front[i];
      }
    }
  }

  // ---------------------------------------------------------------- what any response reveals

  /** All a response can tell beyond its fresh ids: flat datasets and services, or the views of the emitted nodes. */
  datatype Shown = Shown(datasets: seq<Dataset>, services: seq<DataService>, nodes: seq<NodeView>)

  function ShownTo(allowed: AllowList, catalogs: seq<Catalog>): Shown {
    if |catalogs| <= 1 then
      Shown(Map(Erase, VisibleAll(allowed, catalogs)), Map(EraseDescription, FlatMap(ServicesIn, catalogs)), [])
    else
      Shown([], [], Views(allowed, EmittedNodes(allowed, catalogs)))
  }

  function DocumentsOfViews(views: seq<NodeView>, uuids: FreshIds): seq<DspCatalog> {
    seq(|views|, i requires 0 <= i < |views| => DocumentOfView(views[i], i, uuids))
  }

  function DocumentOfShown(shown: Shown, uuids: FreshIds): DspCatalog {
    DspCatalog(
      uuids(Document), CONNECTOR_PARTICIPANT_ID, RenderDatasets(shown.datasets, 0, uuids),
      Map(FromDataService, shown.services), DocumentsOfViews(shown.nodes, uuids))
  }

  function ShownInDocument(doc: DspCatalog): Shown {
    Shown(Map(ToDataset, doc.dataset), Map(ToDataService, doc.service), Map(ViewInDocument, doc.catalog))
  }

  /** A response is rendered from what it shows, and what it shows can be read off it. */
  lemma ResponseShows(allowed: AllowList, catalogs: seq<Catalog>, uuids: FreshIds)
    ensures CatalogDocument(allowed, catalogs, uuids) == DocumentOfShown(ShownTo(allowed, catalogs), uuids)
    ensures ShownInDocument(CatalogDocument(allowed, catalogs, uuids)) == ShownTo(allowed, catalogs)
  {
    hide RenderDatasets, VisibleDatasets, FlatMap, NodeDocuments, EmittedNodes, DocumentOfView, ViewInDocument, ViewOf;
    var doc, shown := CatalogDocument(allowed, catalogs, uuids), ShownTo(allowed, catalogs);
    if |catalogs| <= 1 {
      ErasingShowsTheSame(VisibleAll(allowed, catalogs), 0, FlatMap(ServicesIn, catalogs), uuids);
    } else {
      NodeDocumentsAreTheirViews(allowed, EmittedNodes(allowed, catalogs), uuids);
      ErasingShowsTheSame([], 0, [], uuids);
      assert doc.catalog == DocumentsOfViews(shown.nodes, uuids);
      assert Map(ViewInDocument, doc.catalog) == shown.nodes;
      assert RenderDatasets([], 0, uuids) == [] by { RenderedNothing(uuids); }
    }
  }

  lemma RenderedNothing(uuids: FreshIds)
    ensures RenderDatasets([], 0, uuids) == []
  {
  }

  /**
   A response reveals what it shows and nothing else: drawing the same fresh ids, any two caches (and even
   two callers) get the same document exactly when what is shown is the same.
   */
  lemma ResponseIsWhatIsShown(allowedA: AllowList, a: seq<Catalog>, allowedB: AllowList, b: seq<Catalog>, uuids: FreshIds)
    ensures CatalogDocument(allowedA, a, uuids) == CatalogDocument(allowedB, b, uuids)
            <==> ShownTo(allowedA, a) == ShownTo(allowedB, b)
  {
    hide CatalogDocument, DocumentOfShown, ShownInDocument, ShownTo;
    ResponseShows(allowedA, a, uuids);
    ResponseShows(allowedB, b, uuids);
  }

  /** With two or more nodes on both sides, only the views of the emitted nodes matter. */
  lemma NestedResponseIsWhatIsVisible(
    allowedA: AllowList, a: seq<Catalog>, allowedB: AllowList, b: seq<Catalog>, uuids: FreshIds)
    requires |a| >= 2 && |b| >= 2
    ensures
      CatalogDocument(allowedA, a, uuids) == CatalogDocument(allowedB, b, uuids)
      <==> Views(allowedA, EmittedNodes(allowedA, a)) == Views(allowedB, EmittedNodes(allowedB, b))
  {
    ResponseIsWhatIsShown(allowedA, a, allowedB, b, uuids);
  }

  lemma {:induction false} EmittedAppend(allowed: AllowList, s: seq<Catalog>, t: seq<Catalog>)
    ensures EmittedNodes(allowed, s + t) == EmittedNodes(allowed, s) + EmittedNodes(allowed, t)
  {
    if t == [] {
      assert s + t == s;
    } else {
      var front := t[..|t| - 1];
      assert (s + t)[..|s + t| - 1] == s + front;
      EmittedAppend(allowed, s, front);
    }
  }

  lemma EmittedOne(allowed: AllowList, c: Catalog)
    ensures EmittedNodes(allowed, [c]) == if VisibleDatasets(allowed, c.datasets) == [] then [] else [c]
  {
    assert [c][..0] == [];
  }

  /** The response does not change when the other nodes of `without` are joined by one that shows nothing. */
  predicate Conceals(allowed: AllowList, without: seq<Catalog>, c: Catalog) {
    || |without| >= 2
    || (|without| == 1 && VisibleDatasets(allowed, without[0].datasets) == [] && without[0].dataServices == [])
    || (without == [] && c.dataServices == [])
  }

  /**
   A node without visible datasets leaves no trace in the response exactly when at least two others are
   cached, or when there is nothing to see anyway. Next to one other node it turns the document from flat
   to nested, and on its own it gives away its services.
   */
  lemma HiddenNodeIsHiddenExactly(allowed: AllowList, before: seq<Catalog>, c: Catalog, after: seq<Catalog>, uuids: FreshIds)
    requires VisibleDatasets(allowed, c.datasets) == []
    ensures CatalogDocument(allowed, before + [c] + after, uuids) == CatalogDocument(allowed, before + after, uuids)
            <==> Conceals(allowed, before + after, c)
  {
    hide CatalogDocument, VisibleDatasets, EmittedNodes;
    var with, without := before + [c] + after, before + after;
    ResponseIsWhatIsShown(allowed, with, allowed, without, uuids);
    EmittedAppend(allowed, before + [c], after);
    EmittedAppend(allowed, before, [c]);
    EmittedAppend(allowed, before, after);
    EmittedOne(allowed, c);
    assert EmittedNodes(allowed, with) == EmittedNodes(allowed, without);
    if |without| == 1 {
      OneNodeShows(allowed, without[0]);
      assert without == [without[0]];
      EmittedOne(allowed, without[0]);
    } else if without == [] {
      assert with == [c];
      OneNodeShows(allowed, c);
      NoNodeShows(allowed);
    }
  }

  lemma OneNodeShows(allowed: AllowList, c: Catalog)
    ensures ShownTo(allowed, [c])
         == Shown(Map(Erase, VisibleDatasets(allowed, c.datasets)), Map(EraseDescription, c.dataServices), [])
  {
    FlatMapOne(DatasetsIn, c);
    FlatMapOne(ServicesIn, c);
  }

  lemma NoNodeShows(allowed: AllowList)
    ensures ShownTo(allowed, []) == Shown([], [], [])
  {
  }
}
