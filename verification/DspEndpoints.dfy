/** `authorize` and the handlers of the two DSP catalog endpoints (`crates/http-api/src/lib.rs`). */
module DspEndpoints {
  import opened Wrappers
  import opened CatalogCache
  import opened DspApi
  import opened OxigraphCache
  import opened Jws
  import opened DidDocuments
  import opened Holder
  import opened Verifier
  import Seqs
  import CatalogCore

  datatype DspAuth = Disabled | BearerAuth(catalogAccess: map<string, set<string>>) | DcpAuth(config: DcpConfig)

  datatype Denied = Unauthorized

  /** The caller's allow-list, or a refusal; an unknown bearer token may see nothing. */
  function Authorization(
    libs: Libs, auth: DspAuth, header: Option<string>, net: Network, clock: nat -> Seconds, jti: string): Result<AllowList, Denied>
  {
    if auth.Disabled? then Ok(None)
    else
      match BearerToken(header)
      case None => Err(Unauthorized)
      case Some(token) =>
        match auth
        case BearerAuth(access) => Ok(Some(if token in access then access[token] else {}))
        case DcpAuth(config) =>
          (match Verification(libs, token, config, net, clock, jti)
           case Ok(caller) => Ok(Some(caller.catalogAccess))
           case Err(_) => Err(Unauthorized))
  }

  method Authorize(libs: Libs, auth: DspAuth, header: Option<string>, net: Network, clock: nat -> Seconds, jti: string)
    returns (r: Result<AllowList, Denied>)
    ensures r == Authorization(libs, auth, header, net, clock, jti)
  {
    hide Verification, BearerToken;
    if auth.Disabled? {
      return Ok(None);
    }
    var token := BearerToken(header);
    if token.None? {
      return Err(Unauthorized);
    }
    match auth {
      case BearerAuth(access) =>
        r := Ok(Some(if token.value in access then access[token.value] else {}));
      case DcpAuth(config) =>
        var verified := VerifyDcpBearerToken(libs, token.value, config, net, clock, jti);
        r := if verified.Ok? then Ok(Some(verified.value.catalogAccess)) else Err(Unauthorized);
    }
  }

  /** What the cache may answer when asked for everything: a right answer, or a store error. */
  ghost predicate MayList(m: Store, listing: StoreResult<seq<CatalogCore.Catalog>>) {
    listing.Ok? ==> Answers(m, ALL, listing.value)
  }

  /** The answer to a catalog request, given what the cache query returned. */
  function CatalogResponse(
    allowed: Result<AllowList, Denied>, listing: StoreResult<seq<CatalogCore.Catalog>>, uuids: FreshIds): Fetch
  {
    if allowed.Err? then Response(401, None)
    else if listing.Err? then Response(500, None)
    else Response(200, Some(CatalogJson(CatalogDocument(allowed.value, listing.value, uuids))))
  }

  method CatalogRequest(
    libs: Libs, auth: DspAuth, header: Option<string>, cache: OxigraphCatalogCache, net: Network, clock: nat -> Seconds, jti: string,
    uuids: FreshIds)
    returns (response: Fetch)
    requires cache.Valid()
    ensures response.Response? && response.status != 404
    ensures exists listing :: MayList(cache.model, listing) &&
              response == CatalogResponse(Authorization(libs, auth, header, net, clock, jti), listing, uuids)
  {
    hide Authorization, CatalogJson, RenderDatasets, VisibleDatasets, NodeDocuments, Answers;
    var allowed := Authorize(libs, auth, header, net, clock, jti);
    if allowed.Err? {
      assert MayList(cache.model, Err(IO_ERROR));
      return Response(401, None);
    }
    var catalogs := cache.Query(ALL);
    assert MayList(cache.model, catalogs);
    if catalogs.Err? {
      return Response(500, None);
    }
    var body;
    if |catalogs.value| <= 1 {
      var datasets, services := FlattenCatalogs(catalogs.value);
      body := DspCatalog(
        uuids(Document), CONNECTOR_PARTICIPANT_ID, RenderDatasets(VisibleDatasets(allowed.value, datasets), 0, uuids),
        Seqs.Map(FromDataService, services), []);
    } else {
      var nested := NodeDocuments(allowed.value, EmittedNodes(allowed.value, catalogs.value), uuids);
      body := DspCatalog(uuids(Document), CONNECTOR_PARTICIPANT_ID, [], [], nested);
    }
    response := Response(200, Some(CatalogJson(body)));
  }

  /** The answer to `GET /dsp/catalog/datasets/{id}`: not found and not visible look the same. */
  function DatasetResponse(
    allowed: Result<AllowList, Denied>, listing: StoreResult<seq<CatalogCore.Catalog>>, id: string, offerId: string): Fetch
  {
    if allowed.Err? then Response(401, None)
    else if listing.Err? then Response(500, None)
    else
      match DatasetDocument(allowed.value, listing.value, id, offerId)
      case Some(d) => Response(200, Some(DatasetJson(d)))
      case None => Response(404, None)
  }

  method DatasetRequest(
    libs: Libs, auth: DspAuth, header: Option<string>, cache: OxigraphCatalogCache, net: Network, clock: nat -> Seconds, jti: string,
    id: string, offerId: string)
    returns (response: Fetch)
    requires cache.Valid()
    ensures exists listing :: MayList(cache.model, listing) &&
              response == DatasetResponse(Authorization(libs, auth, header, net, clock, jti), listing, id, offerId)
  {
    hide Authorization, DatasetJson, VisibleDatasets, FindDataset, FromDataset, Answers;
    var allowed := Authorize(libs, auth, header, net, clock, jti);
    if allowed.Err? {
      assert MayList(cache.model, Err(IO_ERROR));
      return Response(401, None);
    }
    var catalogs := cache.Query(ALL);
    assert MayList(cache.model, catalogs);
    if catalogs.Err? {
      return Response(500, None);
    }
    var datasets, services := FlattenCatalogs(catalogs.value);
    var found := FindDataset(VisibleDatasets(allowed.value, datasets), id);
    if found.None? {
      return Response(404, None);
    }
    response := Response(200, Some(DatasetJson(FromDataset(found.value, offerId).(context := Some([DSP_CONTEXT_URL])))));
  }

  /** The endpoint a crawler talks to, as the crawler sees it: its answer to an `Authorization` value. */
  function EndpointAnswer(
    libs: Libs, config: DcpConfig, header: string, net: Network, clock: nat -> Seconds, jti: string,
    listing: StoreResult<seq<CatalogCore.Catalog>>,
    uuids: FreshIds): Fetch
  {
    CatalogResponse(Authorization(libs, DcpAuth(config), Some(header), net, clock, jti), listing, uuids)
  }
}
