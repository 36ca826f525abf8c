/** What the two DSP catalog endpoints promise each other and their callers. */
module EndpointProperties {
  import opened Wrappers
  import opened Seqs
  import opened CatalogCore
  import opened CatalogParser
  import opened DspApi
  import opened DspEndpoints
  import opened WireRoundTrip
  import Verifier
  import Holder
  import Strings
  import DidDocuments
  import OxigraphCache
  import Jws
  import ResponseProperties

  /** The catalog answer parses to a dataset of this id. */
  ghost predicate ListsDataset(response: DidDocuments.Fetch, id: string) {
    && response.Response? && response.status == 200 && response.body.Some?
    && exists d :: d in DatasetsOf(response.body.value) && d.id == id
  }

  /**
   For one caller and one cache content, the dataset endpoint answers 200 exactly for the ids that a parse
   of the catalog endpoint's answer finds.
   */
  lemma FoundExactlyWhenListed(
    allowed: Result<AllowList, Denied>, listing: OxigraphCache.StoreResult<seq<Catalog>>, uuids: FreshIds, id: string, offerId: string)
    ensures
      DatasetResponse(allowed, listing, id, offerId).status == 200
      <==> ListsDataset(CatalogResponse(allowed, listing, uuids), id)
  {
    hide CatalogDocument, CatalogJson, DocumentDatasets, DatasetsOf, MentionsOf, DatasetDocument, DatasetJson;
    if allowed.Ok? && listing.Ok? {
      var doc := CatalogDocument(allowed.value, listing.value, uuids);
      DocumentParses(doc);
      ResponseProperties.ListingMatchesLookup(allowed.value, listing.value, uuids, id, offerId);
      ParsedIds(DocumentDatasets(doc), id);
    }
  }

  lemma ParsedIds(listed: seq<DspDataset>, id: string)
    ensures (exists d :: d in Map(ToDataset, listed) && d.id == id) <==> exists k :: 0 <= k < |listed| && listed[k].id == id
  {
    if k :| 0 <= k < |listed| && listed[k].id == id {
      assert Map(ToDataset, listed)[k] == ToDataset(listed[k]);
    }
    if d :| d in Map(ToDataset, listed) && d.id == id {
      var k :| 0 <= k < |listed| && Map(ToDataset, listed)[k] == d;
      assert listed[k].id == id;
    }
  }

  lemma {:induction false} FindErased(datasets: seq<Dataset>, others: seq<Dataset>, id: string)
    requires Map(Erase, datasets) == Map(Erase, others)
    ensures FindDataset(datasets, id).Some? <==> FindDataset(others, id).Some?
    ensures FindDataset(datasets, id).Some? ==> Erase(FindDataset(datasets, id).value) == Erase(FindDataset(others, id).value)
  {
    assert |datasets| == |Map(Erase, datasets)| == |others|;
    if datasets != [] {
      assert Erase(datasets[0]) == Map(Erase, datasets)[0] == Map(Erase, others)[0] == Erase(others[0]);
      assert Map(Erase, datasets[1..]) == Map(Erase, datasets)[1..] == Map(Erase, others[1..]);
      FindErased(datasets[1..], others[1..], id);
    }
  }

  /** The dataset endpoint gives nothing away but the visible datasets, without their properties. */
  lemma LookupDependsOnVisible(allowed: AllowList, a: seq<Catalog>, b: seq<Catalog>, id: string, offerId: string)
    requires Map(Erase, VisibleAll(allowed, a)) == Map(Erase, VisibleAll(allowed, b))
    ensures DatasetResponse(Ok(allowed), Ok(a), id, offerId) == DatasetResponse(Ok(allowed), Ok(b), id, offerId)
  {
    hide VisibleDatasets, FlatMap, DatasetJson, FindDataset;
    FindErased(VisibleAll(allowed, a), VisibleAll(allowed, b), id);
    var found, other := FindDataset(VisibleAll(allowed, a), id), FindDataset(VisibleAll(allowed, b), id);
    if found.Some? {
      assert FromDataset(found.value, offerId) == FromDataset(Erase(found.value), offerId)
          == FromDataset(Erase(other.value), offerId) == FromDataset(other.value, offerId);
    }
  }

  lemma {:induction false} NothingAllowed(datasets: seq<Dataset>)
    ensures VisibleDatasets(Some({}), datasets) == []
  {
    if datasets != [] {
      NothingAllowed(datasets[..|datasets| - 1]);
    }
  }

  /**
   In bearer mode a token nobody registered is let in and sees nothing: the catalog answer, which is never
   a 404, parses to no dataset, and every lookup is a 404.
   */
  lemma UnknownTokenSeesNothing(
    libs: Jws.Libs, access: map<string, set<string>>, header: string, net: Verifier.Network, clock: nat -> DidDocuments.Seconds,
    jti: string, listing: seq<Catalog>, uuids: FreshIds, id: string, offerId: string)
    requires Holder.BearerToken(Some(header)).Some? && Holder.BearerToken(Some(header)).value !in access
    ensures
      var allowed := Authorization(libs, BearerAuth(access), Some(header), net, clock, jti);
      var response := CatalogResponse(allowed, Ok(listing), uuids);
      && response.Response? && response.status == 200 && response.body.Some? && DatasetsOf(response.body.value) == []
      && DatasetResponse(allowed, Ok(listing), id, offerId) == DidDocuments.Response(404, None)
  {
    hide Holder.BearerToken, CatalogDocument, CatalogJson, DatasetsOf, VisibleDatasets, FlatMap, MentionsOf;
    var allowed: AllowList := Some({});
    NothingAllowed(FlatMap(DatasetsIn, listing));
    ResponseRoundTrip(allowed, listing, uuids, "", "");
  }

  // ---------------------------------------------------------------- who gets what

  /** The header is `Bearer `, and behind it this token between any whitespace. */
  ghost predicate Carries(header: Option<string>, token: string) {
    && token != "" && Strings.Bare(token)
    && exists before, after ::
         && Strings.AllWhitespace(before) && Strings.AllWhitespace(after)
         && header == Some("Bearer " + (before + token + after))
  }

  lemma CarriesExactly(header: Option<string>, token: string)
    ensures Holder.BearerToken(header) == Some(token) <==> Carries(header, token)
  {
    hide Strings.Trim, Strings.StripPrefix, Strings.AllWhitespace, Strings.Bare;
    if Holder.BearerToken(header) == Some(token) {
      var rest := Strings.StripPrefix(header.value, "Bearer ").value;
      Strings.StripPrefixMeans(header.value, "Bearer ", rest);
      var before, after := Strings.TrimSplits(rest);
      assert rest == before + token + after;
    }
    if Carries(header, token) {
      var before, after :|
        && Strings.AllWhitespace(before) && Strings.AllWhitespace(after)
        && header == Some("Bearer " + (before + token + after));
      Strings.StripPrefixMeans(header.value, "Bearer ", before + token + after);
      Strings.TrimOfPadded(before, token, after);
    }
  }

  /** The caller is let in: nobody need be authorized, or the token is any in bearer mode, a verified one in DCP mode. */
  ghost predicate LetIn(
    libs: Jws.Libs, auth: DspAuth, header: Option<string>, net: Verifier.Network, clock: nat -> DidDocuments.Seconds, jti: string)
  {
    match auth
    case Disabled => true
    case BearerAuth(_) => exists token :: Carries(header, token)
    case DcpAuth(config) => exists token :: Carries(header, token) && Verifier.Verification(libs, token, config, net, clock, jti).Ok?
  }

  /** The caller may see the id: no authorization, a token registered with it, or a verification that grants it. */
  ghost predicate MaySee(
    libs: Jws.Libs, auth: DspAuth, header: Option<string>, net: Verifier.Network, clock: nat -> DidDocuments.Seconds, jti: string,
    id: string)
  {
    match auth
    case Disabled => true
    case BearerAuth(access) => exists token :: Carries(header, token) && token in access && id in access[token]
    case DcpAuth(config) =>
      exists token ::
        && Carries(header, token)
        && Verifier.Verification(libs, token, config, net, clock, jti).Ok?
        && id in Verifier.Verification(libs, token, config, net, clock, jti).value.catalogAccess
  }

  lemma AuthorizedExactly(
    libs: Jws.Libs, auth: DspAuth, header: Option<string>, net: Verifier.Network, clock: nat -> DidDocuments.Seconds, jti: string,
    id: string)
    ensures
      var allowed := Authorization(libs, auth, header, net, clock, jti);
      && (allowed.Ok? <==> LetIn(libs, auth, header, net, clock, jti))
      && (allowed.Ok? ==>
            (allowed.value.None? || id in allowed.value.value <==> MaySee(libs, auth, header, net, clock, jti, id)))
  {
    hide Holder.BearerToken, Carries, Verifier.Verification;
    forall token ensures Holder.BearerToken(header) == Some(token) <==> Carries(header, token) {
      CarriesExactly(header, token);
    }
    var token := Holder.BearerToken(header);
    if token.Some? {
      assert Carries(header, token.value);
    }
  }

  /** Some cached node has a dataset of this id. */
  ghost predicate Cached(listing: seq<Catalog>, id: string) {
    exists c, d :: c in listing && d in c.datasets && d.id == id
  }

  lemma {:induction false} FoundExactly(datasets: seq<Dataset>, id: string)
    ensures FindDataset(datasets, id).Some? <==> exists d :: d in datasets && d.id == id
  {
    ResponseProperties.FindsFirst(datasets, id);
    if d :| d in datasets && d.id == id {
      var k :| 0 <= k < |datasets| && datasets[k] == d;
    }
  }

  lemma FlattenedExactly(listing: seq<Catalog>, d: Dataset)
    ensures d in FlatMap(DatasetsIn, listing) <==> exists c :: c in listing && d in c.datasets
  {
    hide FlatMap;
    InFlatMap(DatasetsIn, listing, d);
    assert forall c :: DatasetsIn(c) == c.datasets;
  }

  lemma LookupExactly(allowed: AllowList, listing: seq<Catalog>, id: string, offerId: string)
    ensures
      DatasetDocument(allowed, listing, id, offerId).Some?
      <==> (allowed.None? || id in allowed.value) && Cached(listing, id)
  {
    hide VisibleDatasets, FlatMap, FindDataset;
    var flat := FlatMap(DatasetsIn, listing);
    FoundExactly(VisibleDatasets(allowed, flat), id);
    forall d
      ensures d in VisibleDatasets(allowed, flat) <==>
              (exists c :: c in listing && d in c.datasets) && (allowed.None? || d.id in allowed.value)
    {
      VisibleMember(allowed, flat, d);
      FlattenedExactly(listing, d);
    }
  }

  /**
   Both endpoints serve a dataset id exactly if some node has it cached and the caller may see it: authorization is
   disabled, the header carries a token registered with the id, or the token's verification grants it.
   */
  lemma ServedExactly(
    libs: Jws.Libs, auth: DspAuth, header: Option<string>, net: Verifier.Network, clock: nat -> DidDocuments.Seconds, jti: string,
    listing: seq<Catalog>, uuids: FreshIds, id: string, offerId: string)
    ensures
      var allowed := Authorization(libs, auth, header, net, clock, jti);
      && (DatasetResponse(allowed, Ok(listing), id, offerId).status == 200
          <==> MaySee(libs, auth, header, net, clock, jti, id) && Cached(listing, id))
      && (ListsDataset(CatalogResponse(allowed, Ok(listing), uuids), id)
          <==> MaySee(libs, auth, header, net, clock, jti, id) && Cached(listing, id))
  {
    hide Authorization, MaySee, LetIn, Cached, DatasetDocument, DatasetJson, ListsDataset, CatalogJson, CatalogDocument;
    var allowed := Authorization(libs, auth, header, net, clock, jti);
    AuthorizedExactly(libs, auth, header, net, clock, jti, id);
    if allowed.Ok? {
      LookupExactly(allowed.value, listing, id, offerId);
    } else {
      MaySeeIsLetIn(libs, auth, header, net, clock, jti, id);
    }
    FoundExactlyWhenListed(allowed, Ok(listing), uuids, id, offerId);
  }

  lemma MaySeeIsLetIn(
    libs: Jws.Libs, auth: DspAuth, header: Option<string>, net: Verifier.Network, clock: nat -> DidDocuments.Seconds, jti: string,
    id: string)
    ensures MaySee(libs, auth, header, net, clock, jti, id) ==> LetIn(libs, auth, header, net, clock, jti)
  {
    hide Verifier.Verification, Carries;
  }

  /**
   The status of every answer: 401 exactly if the caller is not let in - without a token and with authorization
   enabled, always -, 500 if then the cache fails, else 200 for the catalog and 200 or 404 for a dataset.
   */
  lemma StatusExactly(
    libs: Jws.Libs, auth: DspAuth, header: Option<string>, net: Verifier.Network, clock: nat -> DidDocuments.Seconds, jti: string,
    listing: OxigraphCache.StoreResult<seq<Catalog>>, uuids: FreshIds, id: string, offerId: string)
    ensures
      var allowed := Authorization(libs, auth, header, net, clock, jti);
      var catalog, dataset := CatalogResponse(allowed, listing, uuids), DatasetResponse(allowed, listing, id, offerId);
      if !LetIn(libs, auth, header, net, clock, jti) then
        catalog == DidDocuments.Response(401, None) && dataset == DidDocuments.Response(401, None)
      else if listing.Err? then
        catalog == DidDocuments.Response(500, None) && dataset == DidDocuments.Response(500, None)
      else
        catalog.Response? && catalog.status == 200 && dataset.Response? && dataset.status in {200, 404}
    ensures !auth.Disabled? && (forall token :: !Carries(header, token)) ==>
      !LetIn(libs, auth, header, net, clock, jti)
  {
    hide Authorization, MaySee, Carries, Verifier.Verification, DatasetDocument, DatasetJson, CatalogJson, CatalogDocument;
    AuthorizedExactly(libs, auth, header, net, clock, jti, id);
  }
}
