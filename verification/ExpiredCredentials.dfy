/** From an expired credential to an untouched cache: verifier, endpoint, crawler and store together. */
module ExpiredCredentials {
  import opened Wrappers
  import opened Json
  import opened Jws
  import opened DidDocuments
  import opened Holder
  import opened Verifier
  import opened VerifierProperties
  import opened CrawlCycle
  import CatalogCore
  import CatalogCache
  import DspApi
  import OxigraphCache
  import DspEndpoints

  /** Whatever presentation the verifier gets to open, each credential in it that verifies has expired. */
  ghost predicate OnlyExpired(libs: Libs, token: string, config: DcpConfig, net: Network, clock: nat -> Seconds, jti: string) {
    forall checked, vp, vcs ::
      && CheckToken(libs, token, config, net, clock(0)) == Ok(checked)
      && QueryPresentation(config, checked, Repackage(libs, config, checked, clock(1), jti), net) == Ok(vp)
      && OpenPresentation(libs, vp, checked.holder.issuerDoc) == Ok(vcs)
      ==> AllExpired(libs, vcs, config, net, clock)
  }

  ghost predicate AllExpired(libs: Libs, vcs: seq<Json>, config: DcpConfig, net: Network, clock: nat -> Seconds) {
    forall i :: 0 <= i < |vcs| && Verifies(libs, vcs[i], net.get, config.insecureHttp) ==>
      IsExpired(libs, vcs[i], net.get, config.insecureHttp, clock(i + 2))
  }

  lemma OpenedIsNotEmpty(libs: Libs, vp: string, doc: DidDocument)
    ensures OpenPresentation(libs, vp, doc).Ok? ==> OpenPresentation(libs, vp, doc).value != []
  {
    hide DecodeJwsUnverified, VerifyJwsSignature, FindVerifyingKey;
  }

  lemma OnlyExpiredIsRefused(libs: Libs, token: string, config: DcpConfig, net: Network, clock: nat -> Seconds, jti: string)
    requires OnlyExpired(libs, token, config, net, clock, jti)
    ensures Verification(libs, token, config, net, clock, jti).Err?
  {
    hide CheckToken, QueryPresentation, OpenPresentation, Judgements, Conclude, Repackage, Verifies;
    var checked := CheckToken(libs, token, config, net, clock(0));
    if checked.Ok? {
      var vp := QueryPresentation(config, checked.value, Repackage(libs, config, checked.value, clock(1), jti), net);
      if vp.Ok? {
        var vcs := OpenPresentation(libs, vp.value, checked.value.holder.issuerDoc);
        OpenedIsNotEmpty(libs, vp.value, checked.value.holder.issuerDoc);
        if vcs.Ok? {
          AllExpiredIsRefused(libs, vcs.value, net.get, config.insecureHttp, clock);
        }
      }
    }
  }

  lemma ExpiredCallerGets401(
    libs: Libs, config: DcpConfig, header: string, net: Network, clock: nat -> Seconds, jti: string,
    listing: OxigraphCache.StoreResult<seq<CatalogCore.Catalog>>,
    uuids: DspApi.FreshIds)
    requires BearerToken(Some(header)).Some? ==> OnlyExpired(libs, BearerToken(Some(header)).value, config, net, clock, jti)
    ensures DspEndpoints.EndpointAnswer(libs, config, header, net, clock, jti, listing, uuids) == Response(401, None)
  {
    hide Verification, BearerToken, OnlyExpired;
    if BearerToken(Some(header)).Some? {
      OnlyExpiredIsRefused(libs, BearerToken(Some(header)).value, config, net, clock, jti);
    }
  }

  /**
   Expired credentials never disturb a cache: if the participant's endpoint is this verifier and all it gets
   to see has expired, the crawl fails with 401 and leaves every cache exactly as it was.
   */
  lemma ExpiredCredentialsLeaveCacheAlone(
    crawler: Libs, p: Participant, holder: Option<HolderIdentity>, x: Exchange,
    libs: Libs, config: DcpConfig, net: Network, clock: nat -> Seconds, jti: string,
    listing: OxigraphCache.StoreResult<seq<CatalogCore.Catalog>>, uuids: DspApi.FreshIds,
    m: CatalogCache.Store, o: Outcome)
    requires AuthorizationHeader(crawler, p, holder, x).Ok?
    requires
      var header := AuthorizationHeader(crawler, p, holder, x).value;
      && x.send(p.catalogRequestUrl, header) == DspEndpoints.EndpointAnswer(libs, config, header, net, clock, jti, listing, uuids)
      && (BearerToken(Some(header)).Some? ==> OnlyExpired(libs, BearerToken(Some(header)).value, config, net, clock, jti))
    requires Explains(o, CrawlResult(crawler, p, holder, x))
    ensures o == Failed(HttpStatus(401))
    ensures Apply(m, o) == m
  {
    hide AuthorizationHeader, BearerToken, OnlyExpired, DspEndpoints.Authorization, DspEndpoints.EndpointAnswer;
    ExpiredCallerGets401(libs, config, AuthorizationHeader(crawler, p, holder, x).value, net, clock, jti, listing, uuids);
  }
}
