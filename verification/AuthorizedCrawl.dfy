/** The whole path at once: an honest crawler, the DCP handshake, the filtered response and its parse. */
module AuthorizedCrawl {
  import opened Wrappers
  import opened Json
  import opened Seqs
  import opened DspApi
  import opened WireRoundTrip
  import opened Holder
  import opened Verifier
  import opened Handshake
  import opened DspEndpoints
  import opened CrawlCycle
  import CatalogCore
  import CatalogCache
  import CatalogParser
  import Jws
  import DidDocuments

  /** What an honest caller with this credential may see; nothing at all when it comes too late. */
  function GrantTo(x: Setting, payload: Json): Option<set<string>> {
    if x.mintedAt + 300 <= x.verifierClock(0) || x.verifierClock(1) + 300 <= x.holderClock(0) then None
    else
      match VerdictOn(payload, x.verifierClock(2))
      case Expired => None
      case Grants(ids) => Some(ids)
  }

  function BearerHeader(x: Setting): string {
    "Bearer " + TheToken(x)
  }

  /** The participant is the verifier of `x`, the crawler its holder, and the request that of `x`. */
  ghost predicate CrawlsVerifier(x: Setting, p: Participant, e: Exchange, listing: seq<CatalogCore.Catalog>, uuids: FreshIds) {
    && p.requiresDcp && p.providerDid == Some(x.verifierDid)
    && e.now == x.mintedAt && e.accessJti == x.accessJti && e.tokenJti == x.tokenJti
    && e.send(p.catalogRequestUrl, BearerHeader(x))
       == EndpointAnswer(x.libs, TheConfig(x), BearerHeader(x), x.net, x.verifierClock, x.repackageJti, Ok(listing), uuids)
  }

  lemma HonestCallerIsAuthorized(
    x: Setting, payload: Json, secret: Jws.SecretKey, kid: string, issuer: string, doc: DidDocuments.DidDocument)
    requires Honest(x) && Issued(x, payload, secret, kid, issuer, doc)
    ensures
      Authorization(x.libs, DcpAuth(TheConfig(x)), Some(BearerHeader(x)), x.net, x.verifierClock, x.repackageJti)
      == match GrantTo(x, payload)
         case Some(ids) => Ok(Some(ids))
         case None => Err(Unauthorized)
  {
    hide Honest, Issued, Verification, VerdictOn, BearerToken, TheToken;
    HonestHandshake(x, payload, secret, kid, issuer, doc);
    TokenHeaderReadsBack(x);
  }

  lemma TokenHeaderReadsBack(x: Setting)
    ensures BearerToken(Some(BearerHeader(x))) == Some(TheToken(x))
  {
    hide Jws.SignJws, BearerToken;
    BearerHeaderReadsBack(x.libs, TokenPayload(x), x.holderSecret, TheHolder(x).keys.ownKeyId);
  }

  lemma CrawlFetchesAnswer(x: Setting, p: Participant, e: Exchange, listing: seq<CatalogCore.Catalog>, uuids: FreshIds)
    requires CrawlsVerifier(x, p, e, listing, uuids)
    ensures
      FetchBody(x.libs, p, Some(TheHolder(x)), e)
      == match Authorization(x.libs, DcpAuth(TheConfig(x)), Some(BearerHeader(x)), x.net, x.verifierClock, x.repackageJti)
         case Ok(allowed) => Ok(CatalogJson(CatalogDocument(allowed, listing, uuids)))
         case Err(_) => Err(HttpStatus(401))
  {
    hide Authorization, CatalogJson, CatalogDocument, MintSelfIssuedToken;
  }

  /**
   An honest crawl of a DCP-protected broker: a request that comes too late or with an expired credential
   fails with 401; any other yields exactly those of the broker's datasets that the credential lists, and the
   first-wins services of their nodes.
   */
  lemma AuthorizedCrawlFetchesTheGrant(
    x: Setting, payload: Json, secret: Jws.SecretKey, kid: string, issuer: string, doc: DidDocuments.DidDocument,
    p: Participant, e: Exchange, listing: seq<CatalogCore.Catalog>, uuids: FreshIds)
    requires Honest(x) && Issued(x, payload, secret, kid, issuer, doc)
    requires CrawlsVerifier(x, p, e, listing, uuids)
    ensures
      var crawled := CrawlResult(x.libs, p, Some(TheHolder(x)), e);
      match GrantTo(x, payload)
      case None => crawled == Err(HttpStatus(401))
      case Some(ids) =>
        && crawled.Ok?
        && crawled.value.originNode == p.id
        && crawled.value.datasets == Map(Erase, VisibleDatasets(Some(ids), FlatMap(DatasetsIn, listing)))
        && crawled.value.dataServices
           == CatalogParser.AddAll([], Map(EraseDescription, FlatMap(ServicesIn, ServiceNodes(Some(ids), listing))))
  {
    hide Honest, Issued, CrawlsVerifier, Authorization, GrantTo, FetchBody, CatalogParser.ParsedCatalog, CatalogJson,
      CatalogDocument, VisibleDatasets, FlatMap;
    HonestCallerIsAuthorized(x, payload, secret, kid, issuer, doc);
    CrawlFetchesAnswer(x, p, e, listing, uuids);
    var granted := GrantTo(x, payload);
    if granted.Some? {
      ResponseRoundTrip(granted, listing, uuids, p.id, e.catalogUuid);
    }
  }

  /**
   What that crawl leaves in the crawler's cache: with 401 every entry stays; otherwise, if the store does
   not fail, the participant's entry holds the grant and every other entry stays.
   */
  lemma AuthorizedCrawlCachesTheGrant(
    x: Setting, payload: Json, secret: Jws.SecretKey, kid: string, issuer: string, doc: DidDocuments.DidDocument,
    p: Participant, e: Exchange, listing: seq<CatalogCore.Catalog>, uuids: FreshIds, m: CatalogCache.Store, o: Outcome)
    requires Honest(x) && Issued(x, payload, secret, kid, issuer, doc)
    requires CrawlsVerifier(x, p, e, listing, uuids)
    requires Explains(o, CrawlResult(x.libs, p, Some(TheHolder(x)), e)) && !o.StoreFailed?
    ensures forall n :: n != p.id ==> (n in Apply(m, o) <==> n in m) && (n in m ==> Apply(m, o)[n] == m[n])
    ensures
      match GrantTo(x, payload)
      case None => o == Failed(HttpStatus(401)) && Apply(m, o) == m
      case Some(ids) =>
        && p.id in Apply(m, o)
        && Apply(m, o)[p.id].datasets == Map(Erase, VisibleDatasets(Some(ids), FlatMap(DatasetsIn, listing)))
        && Apply(m, o)[p.id].dataServices
           == CatalogParser.AddAll([], Map(EraseDescription, FlatMap(ServicesIn, ServiceNodes(Some(ids), listing))))
  {
    hide Honest, Issued, CrawlsVerifier, GrantTo, CrawlResult, VisibleDatasets, FlatMap, ServiceNodes, CatalogParser.AddAll;
    AuthorizedCrawlFetchesTheGrant(x, payload, secret, kid, issuer, doc, p, e, listing, uuids);
  }
}
