/**
 Access services across crawls: an id that names a listed service keeps naming one at every broker above.
 Which service it names is another matter when several nodes list the id.
 */
module ServiceResolution {
  import opened Json
  import opened Seqs
  import opened CatalogCore
  import opened CatalogParser
  import opened DspApi
  import opened WireRoundTrip
  import opened Federation
  import Wrappers
  import CatalogCache
  import CrawlCycle
  import ParserProperties
  import ResponseProperties

  // ---------------------------------------------------------------- one hop

  lemma VisibleContains(allowed: AllowList, datasets: seq<Dataset>, d: Dataset)
    requires d in datasets && IsVisible(allowed, d)
    ensures d in VisibleDatasets(allowed, datasets)
  {
    VisibleExactly(allowed, datasets, d);
    assert d in multiset(datasets);
    assert d in multiset(VisibleDatasets(allowed, datasets));
  }

  lemma {:induction false} EmittedContains(allowed: AllowList, catalogs: seq<Catalog>, c: Catalog)
    requires c in catalogs && VisibleDatasets(allowed, c.datasets) != []
    ensures c in EmittedNodes(allowed, catalogs)
  {
    if c != catalogs[|catalogs| - 1] {
      assert c in catalogs[..|catalogs| - 1];
      EmittedContains(allowed, catalogs[..|catalogs| - 1], c);
    }
  }

  lemma ErasedStillNamed(services: seq<DataService>, id: string)
    ensures HasService(Map(EraseDescription, services), id) <==> HasService(services, id)
  {
    if s :| s in services && s.id == id {
      var k :| 0 <= k < |services| && services[k] == s;
      assert Map(EraseDescription, services)[k] in Map(EraseDescription, services);
    }
    if s :| s in Map(EraseDescription, services) && s.id == id {
      var k :| 0 <= k < |services| && Map(EraseDescription, services)[k] == s;
      assert services[k] in services;
    }
  }

  /** A visible dataset arrives at the next broker, and every id that named a service of its node names one there. */
  lemma ServiceStillNamed(
    allowed: AllowList, listing: seq<Catalog>, uuids: FreshIds, node: NodeId, freshId: string, c: Catalog, d: Dataset, id: string)
    requires c in listing && d in c.datasets && IsVisible(allowed, d) && HasService(c.dataServices, id)
    ensures
      var crawled := ParsedCatalog(CatalogJson(CatalogDocument(allowed, listing, uuids)), node, freshId);
      Erase(d) in crawled.datasets && HasService(crawled.dataServices, id)
  {
    hide CatalogDocument, CatalogJson, ParsedCatalog, VisibleDatasets, FlatMap, EmittedNodes, AddAll;
    ResponseRoundTrip(allowed, listing, uuids, node, freshId);
    InFlatMap(DatasetsIn, listing, d);
    VisibleContains(allowed, FlatMap(DatasetsIn, listing), d);
    var visible := VisibleDatasets(allowed, FlatMap(DatasetsIn, listing));
    var k :| 0 <= k < |visible| && visible[k] == d;
    assert Map(Erase, visible)[k] == Erase(d);
    VisibleContains(allowed, c.datasets, d);
    EmittedContains(allowed, listing, c);
    var s :| s in c.dataServices && s.id == id;
    var mentions := FlatMap(ServicesIn, ServiceNodes(allowed, listing));
    InFlatMap(ServicesIn, ServiceNodes(allowed, listing), s);
    ErasedStillNamed(mentions, id);
    ParserProperties.IdsCovered([], Map(EraseDescription, mentions), id);
  }

  ghost predicate FirstNaming(services: seq<DataService>, id: string, k: int) {
    0 <= k < |services| && services[k].id == id && forall j :: 0 <= j < k ==> services[j].id != id
  }

  /**
   Of the services that the emitted nodes list under one id, the next broker keeps the first; so a
   service keeps its endpoint exactly when the first of its id, in listing order, has the same URL.
   */
  lemma EndpointSurvivesExactly(
    allowed: AllowList, listing: seq<Catalog>, uuids: FreshIds, node: NodeId, freshId: string, s: DataService, k: int)
    requires FirstNaming(FlatMap(ServicesIn, ServiceNodes(allowed, listing)), s.id, k)
    ensures
      var first := FlatMap(ServicesIn, ServiceNodes(allowed, listing))[k];
      var crawled := ParsedCatalog(CatalogJson(CatalogDocument(allowed, listing, uuids)), node, freshId);
      && EraseDescription(first) in crawled.dataServices
      && (EraseDescription(s) in crawled.dataServices <==> s.endpointUrl == first.endpointUrl)
  {
    hide CatalogDocument, CatalogJson, ParsedCatalog, VisibleDatasets, FlatMap, ServiceNodes, AddAll;
    ResponseRoundTrip(allowed, listing, uuids, node, freshId);
    FirstIsKept(FlatMap(ServicesIn, ServiceNodes(allowed, listing)), s, k);
  }

  lemma FirstIsKept(services: seq<DataService>, s: DataService, k: int)
    requires FirstNaming(services, s.id, k)
    ensures EraseDescription(services[k]) in AddAll([], Map(EraseDescription, services))
    ensures EraseDescription(s) in AddAll([], Map(EraseDescription, services)) <==> s.endpointUrl == services[k].endpointUrl
  {
    hide AddAll;
    var mentions := Map(EraseDescription, services);
    ParserProperties.FirstMentionWins(mentions);
    assert ParserProperties.FirstMentionAt(mentions, mentions[k], k);
    if ParserProperties.Mentioned(mentions, EraseDescription(s)) {
      var i :| ParserProperties.FirstMentionAt(mentions, EraseDescription(s), i);
      assert i == k;
    }
  }

  // ---------------------------------------------------------------- any number of hops

  predicate LeafBelow(peer: Peer, body: Json)
    decreases peer, 1
  {
    match peer
    case Leaf(b) => b == body
    case Broker(members, _, _, _) => exists i :: 0 <= i < |members| && LeafBehind(members[i], body)
  }

  predicate LeafBehind(m: Member, body: Json)
    decreases m, 2
  {
    LeafBelow(m.peer, body)
  }

  lemma CrawledIsListed(peer: Peer, i: nat)
    requires peer.Broker? && Settled(peer) && i < |peer.members|
    ensures Crawled(peer.members[i]) in peer.listing
  {
    hide ParsedCatalog, Crawled, CatalogCache.Lists;
    var crawled := CrawledAll(peer.members);
    CacheListsCrawled(peer.before, peer.members);
    SameContents(CrawlCycle.ApplyAll(peer.before, CycleLog(peer.members)), crawled, peer.listing);
    assert crawled[i] in multiset(crawled);
  }

  lemma CrawledServices(m: Member, id: string)
    ensures HasService(Crawled(m).dataServices, id) <==> HasService(MentionsOf(Served(m.peer)), id)
  {
    hide DatasetsOf, MentionsOf, Served, AddAll;
    ParserProperties.IdsCovered([], MentionsOf(Served(m.peer)), id);
  }

  lemma ParsedNames(v: Json, id: string)
    ensures ParsedCatalog(v, "", "").datasets == DatasetsOf(v)
    ensures HasService(ParsedCatalog(v, "", "").dataServices, id) <==> HasService(MentionsOf(v), id)
  {
    hide DatasetsOf, MentionsOf, AddAll;
    ParserProperties.IdsCovered([], MentionsOf(v), id);
  }

  /**
   At the root of any settled tree: every dataset of every leaf is served, and every id that named a
   service the leaf mentioned - a resolving `accessService` in particular - names a service there.
   */
  lemma {:induction false} ServiceNamedAtRoot(peer: Peer, body: Json, d: Dataset, id: string)
    requires Settled(peer) && LeafBelow(peer, body) && d in DatasetsOf(body) && HasService(MentionsOf(body), id)
    ensures d in DatasetsOf(Served(peer)) && HasService(MentionsOf(Served(peer)), id)
    decreases peer, 1
  {
    hide DatasetsOf, MentionsOf, ParsedCatalog, HasService, Erase;
    if peer.Broker? {
      hide Served;
      var i :| 0 <= i < |peer.members| && LeafBehind(peer.members[i], body);
      var m := peer.members[i];
      ServiceNamedBehind(m, body, d, id);
      CrawledIsListed(peer, i);
      CrawledOrigin(m);
      CrawledServices(m, id);
      CrawledIsClean(m, d);
      BrokerStillNames(peer, Crawled(m), d, id);
    }
  }

  lemma {:induction false} ServiceNamedBehind(m: Member, body: Json, d: Dataset, id: string)
    requires Settled(m.peer) && LeafBehind(m, body) && d in DatasetsOf(body) && HasService(MentionsOf(body), id)
    ensures d in DatasetsOf(Served(m.peer)) && HasService(MentionsOf(Served(m.peer)), id)
    decreases m, 2
  {
    ServiceNamedAtRoot(m.peer, body, d, id);
  }

  lemma CrawledIsClean(m: Member, d: Dataset)
    requires d in DatasetsOf(Served(m.peer))
    ensures Erase(d) == d
  {
    hide DatasetsOf, Served;
    ResponseProperties.ParsedIsClean(Served(m.peer), "", "");
    CrawledOrigin(m);
    var datasets := DatasetsOf(Served(m.peer));
    var k :| 0 <= k < |datasets| && datasets[k] == d;
    assert Map(Erase, datasets)[k] == d;
  }

  lemma BrokerStillNames(peer: Peer, c: Catalog, d: Dataset, id: string)
    requires peer.Broker? && c in peer.listing && d in c.datasets && Erase(d) == d && HasService(c.dataServices, id)
    ensures d in DatasetsOf(Served(peer)) && HasService(MentionsOf(Served(peer)), id)
  {
    hide DatasetsOf, MentionsOf, ParsedCatalog, HasService, CatalogDocument, CatalogJson, Erase;
    ServiceStillNamed(Wrappers.None, peer.listing, peer.uuids, "", "", c, d, id);
    ParsedNames(Served(peer), id);
  }
}
