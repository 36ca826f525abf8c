/** Rendering composed with parsing: what one broker serves is what the next broker caches. */
module WireRoundTrip {
  import opened Wrappers
  import opened Json
  import opened Seqs
  import opened CatalogCore
  import opened CatalogParser
  import opened DspApi

  // ---------------------------------------------------------------- parsing any wire document

  function DocumentLevels(c: DspCatalog): seq<DspCatalog>
    decreases c, 1
  {
    if c.catalog == [] then [c] else [c] + NestedDocumentLevels(c.catalog)
  }

  function NestedDocumentLevels(cs: seq<DspCatalog>): seq<DspCatalog>
    decreases cs, 0
  {
    if cs == [] then [] else NestedDocumentLevels(cs[..|cs| - 1]) + DocumentLevels(cs[|cs| - 1])
  }

  function DatasetField(c: DspCatalog): seq<DspDataset> {
    c.dataset
  }

  function ServiceField(c: DspCatalog): seq<DspDataService> {
    c.service
  }

  /** The datasets of a document in document order. */
  function DocumentDatasets(c: DspCatalog): seq<DspDataset> {
    FlatMap(DatasetField, DocumentLevels(c))
  }

  function DocumentServices(c: DspCatalog): seq<DspDataService> {
    FlatMap(ServiceField, DocumentLevels(c))
  }

  function ToDistribution(d: DspDistribution): Distribution {
    Distribution(d.format, d.accessService)
  }

  function ToDataset(d: DspDataset): Dataset {
    Dataset(d.id, map[], Map(ToDistribution, d.distribution))
  }

  function ToDataService(s: DspDataService): DataService {
    DataService(s.id, s.endpointUrl, None)
  }

  lemma DistributionJsonParses(d: DspDistribution)
    ensures DistributionOf(DistributionJson(d)) == ToDistribution(d)
    ensures AccessServiceMention(DistributionJson(d)) == []
  {
  }

  lemma DatasetJsonParses(d: DspDataset)
    ensures KeptDataset(DatasetJson(d)) == [ToDataset(d)]
    ensures DatasetMentions(DatasetJson(d)) == []
  {
    var v := DatasetJson(d);
    assert Get(v, "@id") == Some(Str(d.id));
    assert Get(v, "distribution") == Some(Arr(Map(DistributionJson, d.distribution)));
    forall i | 0 <= i < |d.distribution|
      ensures DistributionOf(Entries(v, "distribution")[i]) == ToDistribution(d.distribution[i])
    {
      DistributionJsonParses(d.distribution[i]);
    }
    assert Map(DistributionOf, Entries(v, "distribution")) == Map(ToDistribution, d.distribution);
    forall x ensures AccessServiceMention(DistributionJson(x)) == [] { DistributionJsonParses(x); }
    FlatMapOfNothing(AccessServiceMention, DistributionJson, d.distribution);
  }

  lemma DataServiceJsonParses(s: DspDataService)
    ensures ServiceMention(DataServiceJson(s)) == [ToDataService(s)]
  {
    var v := DataServiceJson(s);
    assert Get(v, "@id") == Some(Str(s.id));
    assert Get(v, "endpointURL") == Some(Str(s.endpointUrl));
    assert Get(v, "endpointDescription") == None;
  }

  lemma LevelParses(c: DspCatalog)
    ensures LevelDatasets(CatalogJson(c)) == Map(ToDataset, c.dataset)
    ensures LevelMentions(CatalogJson(c)) == Map(ToDataService, c.service)
  {
    var v := CatalogJson(c);
    assert Get(v, "dataset") == Some(Arr(Map(DatasetJson, c.dataset)));
    assert Get(v, "service") == Some(Arr(Map(DataServiceJson, c.service)));
    forall x ensures KeptDataset(DatasetJson(x)) == [ToDataset(x)] && DatasetMentions(DatasetJson(x)) == [] {
      DatasetJsonParses(x);
    }
    forall x ensures ServiceMention(DataServiceJson(x)) == [ToDataService(x)] { DataServiceJsonParses(x); }
    FlatMapOfSingletons(KeptDataset, DatasetJson, ToDataset, c.dataset);
    FlatMapOfNothing(DatasetMentions, DatasetJson, c.dataset);
    FlatMapOfSingletons(ServiceMention, DataServiceJson, ToDataService, c.service);
  }

  lemma {:induction false} LevelsOfDocument(c: DspCatalog)
    ensures Levels(CatalogJson(c)) == Map(CatalogJson, DocumentLevels(c))
    decreases c, 1
  {
    var v := CatalogJson(c);
    if c.catalog == [] {
      assert Get(v, "catalog") == None;
    } else {
      assert Get(v, "catalog") == Some(Arr(CatalogsJson(c.catalog)));
      NestedLevelsOfDocuments(c.catalog);
      MapAppend(CatalogJson, [c], NestedDocumentLevels(c.catalog));
    }
  }

  lemma {:induction false} NestedLevelsOfDocuments(cs: seq<DspCatalog>)
    ensures NestedLevels(CatalogsJson(cs)) == Map(CatalogJson, NestedDocumentLevels(cs))
    decreases cs, 0
  {
    if cs != [] {
      var front, last := cs[..|cs| - 1], cs[|cs| - 1];
      assert CatalogsJson(cs)[..|CatalogsJson(cs)| - 1] == CatalogsJson(front);
      NestedLevelsOfDocuments(front);
      LevelsOfDocument(last);
      MapAppend(CatalogJson, NestedDocumentLevels(front), DocumentLevels(last));
    }
  }

  /** Parsing the JSON of any wire document, however deeply nested, reads back all it lists. */
  lemma DocumentParses(c: DspCatalog)
    ensures DatasetsOf(CatalogJson(c)) == Map(ToDataset, DocumentDatasets(c))
    ensures MentionsOf(CatalogJson(c)) == Map(ToDataService, DocumentServices(c))
  {
    LevelsOfDocument(c);
    forall x
      ensures LevelDatasets(CatalogJson(x)) == Map(ToDataset, DatasetField(x))
      ensures LevelMentions(CatalogJson(x)) == Map(ToDataService, ServiceField(x))
    {
      LevelParses(x);
    }
    FlatMapOfMap(LevelDatasets, CatalogJson, ToDataset, DatasetField, DocumentLevels(c));
    FlatMapOfMap(LevelMentions, CatalogJson, ToDataService, ServiceField, DocumentLevels(c));
  }

  // ---------------------------------------------------------------- what a response lists

  /** What the wire keeps of a dataset: everything but its properties. */
  function Erase(d: Dataset): Dataset {
    d.(properties := map[])
  }

  /** What the wire keeps of a service: everything but its endpoint description. */
  function EraseDescription(s: DataService): DataService {
    s.(endpointDescription := None)
  }

  lemma RenderedDatasets(datasets: seq<Dataset>, node: nat, uuids: FreshIds)
    ensures Map(ToDataset, RenderDatasets(datasets, node, uuids)) == Map(Erase, datasets)
  {
    forall j | 0 <= j < |datasets|
      ensures ToDataset(RenderDatasets(datasets, node, uuids)[j]) == Erase(datasets[j])
    {
      var d := datasets[j];
      assert RenderDatasets(datasets, node, uuids)[j] == FromDataset(d, uuids(Offer(node, j)));
      assert Map(ToDistribution, Map(FromDistribution, d.distributions)) == d.distributions;
    }
  }

  lemma {:induction false} VisibleAppend(allowed: AllowList, s: seq<Dataset>, t: seq<Dataset>)
    ensures VisibleDatasets(allowed, s + t) == VisibleDatasets(allowed, s) + VisibleDatasets(allowed, t)
  {
    if t == [] {
      assert s + t == s;
    } else {
      var front := t[..|t| - 1];
      assert (s + t)[..|s + t| - 1] == s + front;
      VisibleAppend(allowed, s, front);
    }
  }

  /** Filtering keeps every visible dataset as often as it occurs, and nothing else. */
  lemma {:induction false} VisibleExactly(allowed: AllowList, datasets: seq<Dataset>, d: Dataset)
    ensures multiset(VisibleDatasets(allowed, datasets))[d] == if IsVisible(allowed, d) then multiset(datasets)[d] else 0
  {
    if datasets != [] {
      VisibleExactly(allowed, datasets[..|datasets| - 1], d);
      assert datasets == datasets[..|datasets| - 1] + [datasets[|datasets| - 1]];
    }
  }

  /** A dataset is visible exactly if it is there and its id is allowed. */
  lemma VisibleMember(allowed: AllowList, datasets: seq<Dataset>, d: Dataset)
    ensures d in VisibleDatasets(allowed, datasets) <==> d in datasets && (allowed.None? || d.id in allowed.value)
  {
    VisibleExactly(allowed, datasets, d);
    assert d in datasets <==> d in multiset(datasets);
    assert d in VisibleDatasets(allowed, datasets) <==> d in multiset(VisibleDatasets(allowed, datasets));
  }

  /** The nodes whose services a response carries: all of a single node's, only emitted nodes' of several. */
  function ServiceNodes(allowed: AllowList, catalogs: seq<Catalog>): seq<Catalog> {
    if |catalogs| <= 1 then catalogs else EmittedNodes(allowed, catalogs)
  }

  function NodeLevels(allowed: AllowList, catalogs: seq<Catalog>, uuids: FreshIds): seq<DspCatalog> {
    NestedDocumentLevels(NodeDocuments(allowed, EmittedNodes(allowed, catalogs), uuids))
  }

  function VisibleAll(allowed: AllowList, catalogs: seq<Catalog>): seq<Dataset> {
    VisibleDatasets(allowed, FlatMap(DatasetsIn, catalogs))
  }

  lemma VisibleStep(allowed: AllowList, front: seq<Catalog>, last: Catalog)
    ensures VisibleAll(allowed, front + [last]) == VisibleAll(allowed, front) + VisibleDatasets(allowed, last.datasets)
  {
    FlatMapAppend(DatasetsIn, front, [last]);
    FlatMapOne(DatasetsIn, last);
    VisibleAppend(allowed, FlatMap(DatasetsIn, front), last.datasets);
  }

  lemma EmittedStep(allowed: AllowList, front: seq<Catalog>, last: Catalog, uuids: FreshIds)
    ensures EmittedNodes(allowed, front + [last])
         == if VisibleDatasets(allowed, last.datasets) == [] then EmittedNodes(allowed, front)
            else EmittedNodes(allowed, front) + [last]
    ensures NodeDocuments(allowed, EmittedNodes(allowed, front) + [last], uuids)
         == NodeDocuments(allowed, EmittedNodes(allowed, front), uuids)
            + [NodeDocument(allowed, last, |EmittedNodes(allowed, front)|, uuids)]
  {
    assert (front + [last])[..|front|] == front;
    var before := EmittedNodes(allowed, front);
    assert (before + [last])[..|before|] == before;
    assert before + [] == before;
  }

  lemma {:induction false} NodeLevelsDatasets(allowed: AllowList, catalogs: seq<Catalog>, uuids: FreshIds)
    ensures Map(ToDataset, FlatMap(DatasetField, NodeLevels(allowed, catalogs, uuids))) == Map(Erase, VisibleAll(allowed, catalogs))
  {
    if catalogs != [] {
      var front, last := catalogs[..|catalogs| - 1], catalogs[|catalogs| - 1];
      var visible, before := VisibleDatasets(allowed, last.datasets), EmittedNodes(allowed, front);
      assert catalogs == front + [last];
      NodeLevelsDatasets(allowed, front, uuids);
      VisibleStep(allowed, front, last);
      EmittedStep(allowed, front, last, uuids);
      MapAppend(Erase, VisibleAll(allowed, front), visible);
      if visible != [] {
        OneMoreDocument(NodeDocuments(allowed, before, uuids), NodeDocument(allowed, last, |before|, uuids));
        RenderedDatasets(visible, |before|, uuids);
      }
    }
  }

  lemma {:induction false} NodeLevelsServices(allowed: AllowList, catalogs: seq<Catalog>, uuids: FreshIds)
    ensures Map(ToDataService, FlatMap(ServiceField, NodeLevels(allowed, catalogs, uuids)))
         == Map(EraseDescription, FlatMap(ServicesIn, EmittedNodes(allowed, catalogs)))
  {
    if catalogs != [] {
      var front, last := catalogs[..|catalogs| - 1], catalogs[|catalogs| - 1];
      var before := EmittedNodes(allowed, front);
      assert catalogs == front + [last];
      NodeLevelsServices(allowed, front, uuids);
      EmittedStep(allowed, front, last, uuids);
      if VisibleDatasets(allowed, last.datasets) != [] {
        OneMoreDocument(NodeDocuments(allowed, before, uuids), NodeDocument(allowed, last, |before|, uuids));
        assert Map(ToDataService, Map(FromDataService, last.dataServices)) == Map(EraseDescription, last.dataServices);
        FlatMapAppend(ServicesIn, before, [last]);
        FlatMapOne(ServicesIn, last);
        MapAppend(EraseDescription, FlatMap(ServicesIn, before), last.dataServices);
      }
    }
  }

  lemma OneMoreLevel(docs: seq<DspCatalog>, doc: DspCatalog)
    requires doc.catalog == []
    ensures NestedDocumentLevels(docs + [doc]) == NestedDocumentLevels(docs) + [doc]
  {
    assert (docs + [doc])[..|docs + [doc]| - 1] == docs;
  }

  lemma OneMoreDocument(docs: seq<DspCatalog>, doc: DspCatalog)
    requires doc.catalog == []
    ensures Map(ToDataset, FlatMap(DatasetField, NestedDocumentLevels(docs + [doc])))
         == Map(ToDataset, FlatMap(DatasetField, NestedDocumentLevels(docs))) + Map(ToDataset, doc.dataset)
    ensures Map(ToDataService, FlatMap(ServiceField, NestedDocumentLevels(docs + [doc])))
         == Map(ToDataService, FlatMap(ServiceField, NestedDocumentLevels(docs))) + Map(ToDataService, doc.service)
  {
    var levels := NestedDocumentLevels(docs);
    OneMoreLevel(docs, doc);
    FlatMapAppend(DatasetField, levels, [doc]);
    FlatMapAppend(ServiceField, levels, [doc]);
    FlatMapOne(DatasetField, doc);
    FlatMapOne(ServiceField, doc);
    MapAppend(ToDataset, FlatMap(DatasetField, levels), doc.dataset);
    MapAppend(ToDataService, FlatMap(ServiceField, levels), doc.service);
  }

  lemma ResponseLists(allowed: AllowList, catalogs: seq<Catalog>, uuids: FreshIds)
    ensures
      var doc := CatalogDocument(allowed, catalogs, uuids);
      && Map(ToDataset, DocumentDatasets(doc)) == Map(Erase, VisibleDatasets(allowed, FlatMap(DatasetsIn, catalogs)))
      && Map(ToDataService, DocumentServices(doc))
         == Map(EraseDescription, FlatMap(ServicesIn, ServiceNodes(allowed, catalogs)))
  {
    var doc := CatalogDocument(allowed, catalogs, uuids);
    FlatMapOne(DatasetField, doc);
    FlatMapOne(ServiceField, doc);
    if |catalogs| <= 1 {
      RenderedDatasets(VisibleDatasets(allowed, FlatMap(DatasetsIn, catalogs)), 0, uuids);
      var services := FlatMap(ServicesIn, catalogs);
      assert Map(ToDataService, Map(FromDataService, services)) == Map(EraseDescription, services);
    } else {
      NodeLevelsDatasets(allowed, catalogs, uuids);
      NodeLevelsServices(allowed, catalogs, uuids);
      FlatMapAppend(DatasetField, [doc], NestedDocumentLevels(doc.catalog));
      FlatMapAppend(ServiceField, [doc], NestedDocumentLevels(doc.catalog));
      assert DocumentDatasets(doc) == FlatMap(DatasetField, NestedDocumentLevels(doc.catalog));
      assert DocumentServices(doc) == FlatMap(ServiceField, NestedDocumentLevels(doc.catalog));
    }
  }

  /**
   The round trip through the wire: for every query result and every caller, crawling the rendered
   response gives the visible datasets in order and the emitted nodes' services, first mention winning.
   */
  lemma ResponseRoundTrip(allowed: AllowList, catalogs: seq<Catalog>, uuids: FreshIds, node: NodeId, freshId: string)
    ensures
      var crawled := ParsedCatalog(CatalogJson(CatalogDocument(allowed, catalogs, uuids)), node, freshId);
      && crawled.id == uuids(Document)
      && crawled.originNode == node
      && crawled.participantId == Some(CONNECTOR_PARTICIPANT_ID)
      && crawled.datasets == Map(Erase, VisibleDatasets(allowed, FlatMap(DatasetsIn, catalogs)))
      && crawled.dataServices
         == AddAll([], Map(EraseDescription, FlatMap(ServicesIn, ServiceNodes(allowed, catalogs))))
  {
    hide DatasetsOf, MentionsOf, CatalogJson, VisibleDatasets, FlatMap, ServiceNodes, AddAll, NodeDocuments;
    var doc := CatalogDocument(allowed, catalogs, uuids);
    DocumentHeader(doc);
    DocumentParses(doc);
    ResponseLists(allowed, catalogs, uuids);
  }

  lemma DocumentHeader(doc: DspCatalog)
    ensures GetStr(CatalogJson(doc), "@id") == Some(doc.id)
    ensures GetStr(CatalogJson(doc), "participantId") == Some(doc.participantId)
  {
  }
}
