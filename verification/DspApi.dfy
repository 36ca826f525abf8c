/**
 The DSP catalog endpoints of `crates/http-api/src/lib.rs`: per-caller filtering, the flat and the
 nested catalog document, and the lookup of one dataset.
 */
module DspApi {
  import opened Wrappers
  import opened Json
  import opened Seqs
  import opened CatalogCore

  const DSP_CONTEXT_URL := "https://w3id.org/dspace/2025/1/context.jsonld"
  const CONNECTOR_PARTICIPANT_ID := "urn:connector:federated-catalog-rs"

  /** Where a response needs a fresh `urn:uuid`: itself, a nested catalog, or a dataset's offer. */
  datatype Slot = Document | Nested(node: nat) | Offer(offerNode: nat, dataset: nat)

  type FreshIds = Slot -> string

  // ---------------------------------------------------------------- wire types

  datatype DspDistribution = DspDistribution(format: string, accessService: string)

  datatype DspDataset = DspDataset(
    context: Option<seq<string>>, id: string, offerId: string, distribution: seq<DspDistribution>)

  datatype DspDataService = DspDataService(id: string, endpointUrl: string)

  datatype DspCatalog = DspCatalog(
    id: string, participantId: string, dataset: seq<DspDataset>, service: seq<DspDataService>, catalog: seq<DspCatalog>)

  function FromDistribution(d: Distribution): DspDistribution {
    DspDistribution(d.format, d.accessService)
  }

  function FromDataset(d: Dataset, offerId: string): DspDataset {
    DspDataset(None, d.id, offerId, Map(FromDistribution, d.distributions))
  }

  function FromDataService(s: DataService): DspDataService {
    DspDataService(s.id, s.endpointUrl)
  }

  // ---------------------------------------------------------------- JSON form

  function DistributionJson(d: DspDistribution): Json {
    Obj(map["@type" := Str("Distribution"), "format" := Str(d.format), "accessService" := Str(d.accessService)])
  }

  function OfferJson(id: string): Json {
    Obj(map[
      "@id" := Str(id),
      "@type" := Str("Offer"),
      "permission" := Arr([Obj(map["@type" := Str("Permission"), "action" := Str("http://www.w3.org/ns/odrl/2/use")])])])
  }

  function DatasetJson(d: DspDataset): Json {
    var members := map[
      "@id" := Str(d.id),
      "@type" := Str("Dataset"),
      "hasPolicy" := Arr([OfferJson(d.offerId)]),
      "distribution" := Arr(Map(DistributionJson, d.distribution))];
    Obj(if d.context.Some? then members["@context" := StringArray(d.context.value)] else members)
  }

  function DataServiceJson(s: DspDataService): Json {
    Obj(map["@id" := Str(s.id), "@type" := Str("DataService"), "endpointURL" := Str(s.endpointUrl)])
  }

  /** An empty `catalog` member is left out of the JSON. */
  function CatalogJson(c: DspCatalog): Json
    decreases c, 1
  {
    var members := map[
      "@context" := StringArray([DSP_CONTEXT_URL]),
      "@id" := Str(c.id),
      "@type" := Str("Catalog"),
      "participantId" := Str(c.participantId),
      "dataset" := Arr(Map(DatasetJson, c.dataset)),
      "service" := Arr(Map(DataServiceJson, c.service))];
    Obj(if c.catalog == [] then members else members["catalog" := Arr(CatalogsJson(c.catalog))])
  }

  function CatalogsJson(cs: seq<DspCatalog>): seq<Json>
    decreases cs, 0
  {
    if cs == [] then [] else CatalogsJson(cs[..|cs| - 1]) + [CatalogJson(cs[|cs| - 1])]
  }

  // ---------------------------------------------------------------- filtering and flattening

  /** `None` means that nothing is filtered; otherwise the ids the caller may see. */
  type AllowList = Option<set<string>>

  predicate IsVisible(allowed: AllowList, d: Dataset) {
    allowed.Some? ==> d.id in allowed.value
  }

  function VisibleDatasets(allowed: AllowList, datasets: seq<Dataset>): seq<Dataset> {
    if datasets == [] then []
    else
      var last := datasets[|datasets| - 1];
      VisibleDatasets(allowed, datasets[..|datasets| - 1]) + if IsVisible(allowed, last) then [last] else []
  }

  function DatasetsIn(c: Catalog): seq<Dataset> {
    c.datasets
  }

  function ServicesIn(c: Catalog): seq<DataService> {
    c.dataServices
  }

  method FlattenCatalogs(catalogs: seq<Catalog>) returns (datasets: seq<Dataset>, services: seq<DataService>)
    ensures datasets == FlatMap(DatasetsIn, catalogs)
    ensures services == FlatMap(ServicesIn, catalogs)
  {
    datasets, services := [], [];
    for i := 0 to |catalogs|
      invariant datasets == FlatMap(DatasetsIn, catalogs[..i])
      invariant services == FlatMap(ServicesIn, catalogs[..i])
    {
      datasets := datasets + catalogs[i].datasets;
      services := services + catalogs[i].dataServices;
      FlatMapStep(DatasetsIn, catalogs, i);
      FlatMapStep(ServicesIn, catalogs, i);
    }
    assert catalogs[..|catalogs|] == catalogs;
  }

  // ---------------------------------------------------------------- POST /dsp/catalog/request

  function RenderDatasets(datasets: seq<Dataset>, node: nat, uuids: FreshIds): seq<DspDataset> {
    seq(|datasets|, j requires 0 <= j < |datasets| => FromDataset(datasets[j], uuids(Offer(node, j))))
  }

  /** The nodes that have a dataset the caller may see. */
  function EmittedNodes(allowed: AllowList, catalogs: seq<Catalog>): seq<Catalog> {
    if catalogs == [] then []
    else
      var last := catalogs[|catalogs| - 1];
      EmittedNodes(allowed, catalogs[..|catalogs| - 1])
      + if VisibleDatasets(allowed, last.datasets) == [] then [] else [last]
  }

  function NodeDocument(allowed: AllowList, c: Catalog, node: nat, uuids: FreshIds): DspCatalog {
    DspCatalog(
      uuids(Nested(node)),
      c.participantId.GetOr(c.originNode),
      RenderDatasets(VisibleDatasets(allowed, c.datasets), node, uuids),
      Map(FromDataService, c.dataServices),
      [])
  }

  function NodeDocuments(allowed: AllowList, emitted: seq<Catalog>, uuids: FreshIds): seq<DspCatalog> {
    if emitted == [] then []
    else
      NodeDocuments(allowed, emitted[..|emitted| - 1], uuids)
      + [NodeDocument(allowed, emitted[|emitted| - 1], |emitted| - 1, uuids)]
  }

  /** Flat for at most one cached node, one nested catalog per emitted node otherwise. */
  function CatalogDocument(allowed: AllowList, catalogs: seq<Catalog>, uuids: FreshIds): DspCatalog {
    if |catalogs| <= 1 then
      DspCatalog(
        uuids(Document),
        CONNECTOR_PARTICIPANT_ID,
        RenderDatasets(VisibleDatasets(allowed, FlatMap(DatasetsIn, catalogs)), 0, uuids),
        Map(FromDataService, FlatMap(ServicesIn, catalogs)),
        [])
    else
      DspCatalog(
        uuids(Document),
        CONNECTOR_PARTICIPANT_ID,
        [],
        [],
        NodeDocuments(allowed, EmittedNodes(allowed, catalogs), uuids))
  }

  // ---------------------------------------------------------------- GET /dsp/catalog/datasets/{id}

  function FindDataset(datasets: seq<Dataset>, id: string): Option<Dataset> {
    if datasets == [] then None
    else if datasets[0].id == id then Some(datasets[0])
    else FindDataset(datasets[1..], id)
  }

  /** The dataset document to answer with, or nothing for a 404. */
  function DatasetDocument(allowed: AllowList, catalogs: seq<Catalog>, id: string, offerId: string): Option<DspDataset> {
    match FindDataset(VisibleDatasets(allowed, FlatMap(DatasetsIn, catalogs)), id)
    case Some(d) => Some(FromDataset(d, offerId).(context := Some([DSP_CONTEXT_URL])))
    case None => None
  }
}
