/** The documents the DSP endpoints answer with, member by member. */
module WireFormat {
  import opened Wrappers
  import opened Json
  import opened Seqs
  import opened CatalogCore
  import opened DspApi
  import WireRoundTrip
  import ResponseProperties

  ghost predicate RendersDistribution(v: Json, d: Distribution) {
    v == Obj(map["@type" := Str("Distribution"), "format" := Str(d.format), "accessService" := Str(d.accessService)])
  }

  ghost predicate RendersOffer(v: Json, id: string) {
    v == Obj(map[
      "@id" := Str(id),
      "@type" := Str("Offer"),
      "permission" := Arr([Obj(map["@type" := Str("Permission"), "action" := Str("http://www.w3.org/ns/odrl/2/use")])])])
  }

  ghost predicate RendersDistributions(vs: seq<Json>, ds: seq<Distribution>) {
    |vs| == |ds| && forall i :: 0 <= i < |vs| ==> RendersDistribution(vs[i], ds[i])
  }

  /** A dataset with one placeholder offer, and a context only if it stands alone. */
  ghost predicate RendersDataset(v: Json, d: Dataset, offerId: string, alone: bool) {
    && v.Obj?
    && v.members.Keys == {"@id", "@type", "hasPolicy", "distribution"} + (if alone then {"@context"} else {})
    && v.members["@id"] == Str(d.id)
    && v.members["@type"] == Str("Dataset")
    && v.members["hasPolicy"].Arr? && |v.members["hasPolicy"].items| == 1 && RendersOffer(v.members["hasPolicy"].items[0], offerId)
    && v.members["distribution"].Arr? && RendersDistributions(v.members["distribution"].items, d.distributions)
    && (alone ==> v.members["@context"] == Arr([Str("https://w3id.org/dspace/2025/1/context.jsonld")]))
  }

  ghost predicate RendersService(v: Json, s: DataService) {
    v == Obj(map["@id" := Str(s.id), "@type" := Str("DataService"), "endpointURL" := Str(s.endpointUrl)])
  }

  /** A catalog of these datasets and services, with a `catalog` list exactly if there is something to nest. */
  ghost predicate RendersCatalog(
    v: Json, id: string, participantId: string, datasets: seq<Dataset>, node: nat, services: seq<DataService>, uuids: FreshIds,
    nested: seq<Json>)
  {
    && v.Obj?
    && v.members.Keys == {"@context", "@id", "@type", "participantId", "dataset", "service"} + (if nested == [] then {} else {"catalog"})
    && v.members["@context"] == Arr([Str("https://w3id.org/dspace/2025/1/context.jsonld")])
    && v.members["@id"] == Str(id)
    && v.members["@type"] == Str("Catalog")
    && v.members["participantId"] == Str(participantId)
    && v.members["dataset"].Arr? && RendersDatasets(v.members["dataset"].items, datasets, node, uuids)
    && v.members["service"].Arr? && RendersServices(v.members["service"].items, services)
    && (nested != [] ==> v.members["catalog"] == Arr(nested))
  }

  ghost predicate RendersDatasets(vs: seq<Json>, datasets: seq<Dataset>, node: nat, uuids: FreshIds) {
    |vs| == |datasets| && forall j :: 0 <= j < |vs| ==> RendersDataset(vs[j], datasets[j], uuids(Offer(node, j)), false)
  }

  ghost predicate RendersServices(vs: seq<Json>, services: seq<DataService>) {
    |vs| == |services| && forall j :: 0 <= j < |vs| ==> RendersService(vs[j], services[j])
  }

  lemma DatasetIsRendered(d: Dataset, offerId: string)
    ensures RendersDataset(DatasetJson(FromDataset(d, offerId)), d, offerId, false)
    ensures RendersDataset(DatasetJson(FromDataset(d, offerId).(context := Some([DSP_CONTEXT_URL]))), d, offerId, true)
  {
    var distributions := Map(DistributionJson, Map(FromDistribution, d.distributions));
    forall i | 0 <= i < |distributions| ensures RendersDistribution(distributions[i], d.distributions[i]) {
      assert Map(FromDistribution, d.distributions)[i] == FromDistribution(d.distributions[i]);
    }
    assert StringArray([DSP_CONTEXT_URL]) == Arr([Str("https://w3id.org/dspace/2025/1/context.jsonld")]);
  }

  lemma DatasetsAreRendered(datasets: seq<Dataset>, node: nat, uuids: FreshIds)
    ensures RendersDatasets(Map(DatasetJson, RenderDatasets(datasets, node, uuids)), datasets, node, uuids)
  {
    hide RendersDataset, DatasetJson, FromDataset;
    var rendered := RenderDatasets(datasets, node, uuids);
    forall j | 0 <= j < |datasets| ensures RendersDataset(Map(DatasetJson, rendered)[j], datasets[j], uuids(Offer(node, j)), false) {
      assert rendered[j] == FromDataset(datasets[j], uuids(Offer(node, j)));
      DatasetIsRendered(datasets[j], uuids(Offer(node, j)));
    }
  }

  lemma ServicesAreRendered(services: seq<DataService>)
    ensures RendersServices(Map(DataServiceJson, Map(FromDataService, services)), services)
  {
  }

  lemma CatalogIsRendered(c: DspCatalog, datasets: seq<Dataset>, node: nat, services: seq<DataService>, uuids: FreshIds)
    requires c.dataset == RenderDatasets(datasets, node, uuids) && c.service == Map(FromDataService, services)
    ensures RendersCatalog(CatalogJson(c), c.id, c.participantId, datasets, node, services, uuids, CatalogsJson(c.catalog))
  {
    hide RendersDatasets, RendersServices, RenderDatasets, DatasetJson, DataServiceJson;
    DatasetsAreRendered(datasets, node, uuids);
    ServicesAreRendered(services);
    assert StringArray([DSP_CONTEXT_URL]) == Arr([Str("https://w3id.org/dspace/2025/1/context.jsonld")]);
    assert c.catalog == [] <==> CatalogsJson(c.catalog) == [];
  }

  /** For at most one node: one flat document of everything visible, under the connector's own name. */
  lemma FlatDocumentIs(allowed: AllowList, listing: seq<Catalog>, uuids: FreshIds)
    requires |listing| <= 1
    ensures RendersCatalog(
      CatalogJson(CatalogDocument(allowed, listing, uuids)), uuids(Document), "urn:connector:federated-catalog-rs",
      VisibleDatasets(allowed, FlatMap(DatasetsIn, listing)), 0, FlatMap(ServicesIn, listing), uuids, [])
  {
    hide RendersCatalog, VisibleDatasets, FlatMap, RenderDatasets, CatalogJson;
    CatalogIsRendered(
      CatalogDocument(allowed, listing, uuids), VisibleDatasets(allowed, FlatMap(DatasetsIn, listing)), 0,
      FlatMap(ServicesIn, listing), uuids);
  }

  /** For more: an empty wrapper around one document per node with a visible dataset, under that node's name. */
  lemma NestedDocumentIs(allowed: AllowList, listing: seq<Catalog>, uuids: FreshIds)
    requires |listing| >= 2
    ensures
      var emitted := EmittedNodes(allowed, listing);
      exists nested ::
        && RendersCatalog(
             CatalogJson(CatalogDocument(allowed, listing, uuids)), uuids(Document), "urn:connector:federated-catalog-rs",
             [], 0, [], uuids, nested)
        && |nested| == |emitted|
        && forall i :: 0 <= i < |emitted| ==> RendersNode(nested[i], allowed, emitted[i], i, uuids)
  {
    hide RendersCatalog, VisibleDatasets, EmittedNodes, CatalogJson, RendersNode;
    var doc, emitted := CatalogDocument(allowed, listing, uuids), EmittedNodes(allowed, listing);
    NothingRendered(uuids);
    CatalogIsRendered(doc, [], 0, [], uuids);
    NodesAreRendered(allowed, emitted, uuids);
    assert |CatalogsJson(doc.catalog)| == |emitted|;
  }

  lemma NothingRendered(uuids: FreshIds)
    ensures RenderDatasets([], 0, uuids) == [] && Map(FromDataService, []) == []
  {
  }

  /** A node's document: its participant id or, failing that, its node id; its visible datasets and all its services. */
  ghost predicate RendersNode(v: Json, allowed: AllowList, c: Catalog, node: nat, uuids: FreshIds) {
    RendersCatalog(
      v, uuids(Nested(node)), match c.participantId case Some(p) => p case None => c.originNode,
      VisibleDatasets(allowed, c.datasets), node, c.dataServices, uuids, [])
  }

  lemma {:induction false} NodesAreRendered(allowed: AllowList, emitted: seq<Catalog>, uuids: FreshIds)
    ensures
      var nested := CatalogsJson(NodeDocuments(allowed, emitted, uuids));
      |nested| == |emitted| && forall i :: 0 <= i < |emitted| ==> RendersNode(nested[i], allowed, emitted[i], i, uuids)
  {
    hide RendersCatalog, VisibleDatasets, CatalogJson, RenderDatasets, RendersNode;
    if emitted != [] {
      var front, last := emitted[..|emitted| - 1], emitted[|emitted| - 1];
      var docs, doc := NodeDocuments(allowed, front, uuids), NodeDocument(allowed, last, |front|, uuids);
      NodesAreRendered(allowed, front, uuids);
      assert (docs + [doc])[..|docs + [doc]| - 1] == docs;
      NodeIsRendered(allowed, last, |front|, uuids);
    }
  }

  lemma NodeIsRendered(allowed: AllowList, c: Catalog, node: nat, uuids: FreshIds)
    ensures RendersNode(CatalogJson(NodeDocument(allowed, c, node, uuids)), allowed, c, node, uuids)
  {
    hide RendersCatalog, VisibleDatasets, CatalogJson, RenderDatasets;
    CatalogIsRendered(NodeDocument(allowed, c, node, uuids), VisibleDatasets(allowed, c.datasets), node, c.dataServices, uuids);
  }

  /** The emitted nodes are those with a dataset the caller may see, each as often as it is cached. */
  lemma {:induction false} EmittedExactly(allowed: AllowList, listing: seq<Catalog>, c: Catalog)
    ensures multiset(EmittedNodes(allowed, listing))[c] ==
            if exists d :: d in c.datasets && (allowed.None? || d.id in allowed.value) then multiset(listing)[c] else 0
  {
    hide VisibleDatasets;
    if listing != [] {
      var front, last := listing[..|listing| - 1], listing[|listing| - 1];
      EmittedExactly(allowed, front, c);
      assert listing == front + [last];
      SomethingVisible(allowed, last.datasets);
    }
  }

  lemma SomethingVisible(allowed: AllowList, datasets: seq<Dataset>)
    ensures VisibleDatasets(allowed, datasets) != [] <==> exists d :: d in datasets && (allowed.None? || d.id in allowed.value)
  {
    hide VisibleDatasets;
    var visible := VisibleDatasets(allowed, datasets);
    forall d ensures d in visible <==> d in datasets && (allowed.None? || d.id in allowed.value) {
      WireRoundTrip.VisibleMember(allowed, datasets, d);
    }
    if visible != [] {
      assert visible[0] in visible;
    }
  }

  /** The answer of the dataset endpoint: the first visible dataset of the id, with a context of its own. */
  lemma DatasetDocumentIs(allowed: AllowList, listing: seq<Catalog>, id: string, offerId: string)
    ensures
      var found := DatasetDocument(allowed, listing, id, offerId);
      found.Some? ==>
        exists d ::
          && d in VisibleDatasets(allowed, FlatMap(DatasetsIn, listing)) && d.id == id
          && RendersDataset(DatasetJson(found.value), d, offerId, true)
  {
    hide VisibleDatasets, FlatMap, FindDataset, RendersDataset, DatasetJson, FromDataset;
    var visible := VisibleDatasets(allowed, FlatMap(DatasetsIn, listing));
    var found := FindDataset(visible, id);
    ResponseProperties.FindsFirst(visible, id);
    if found.Some? {
      DatasetIsRendered(found.value, offerId);
      assert found.value in visible;
    }
  }
}
