/**
 Brokers crawling brokers. A federation is a finite tree: leaves serve a catalog of their own, every
 other node is a broker that has crawled its members and serves what it cached.
 */
module Federation {
  import opened Wrappers
  import opened Json
  import opened Seqs
  import opened CatalogCore
  import opened CatalogCache
  import opened CatalogParser
  import opened DspApi
  import opened WireRoundTrip
  import opened ResponseProperties
  import opened CrawlCycle
  import Jws
  import DidDocuments

  /**
   A broker is described by its members, the cache it had before the cycle, the answer its cache then gave
   to the catalog query, and the fresh ids its response drew.
   */
  datatype Peer =
    | Leaf(body: Json)
    | Broker(members: seq<Member>, before: Store, listing: seq<Catalog>, uuids: FreshIds)

  datatype Member = Member(participant: Participant, exchange: Exchange, peer: Peer)

  /** The document a peer answers a catalog request with, auth being disabled. */
  function Served(peer: Peer): Json {
    match peer
    case Leaf(body) => body
    case Broker(_, _, listing, uuids) => CatalogJson(CatalogDocument(None, listing, uuids))
  }

  function Crawled(m: Member): Catalog {
    ParsedCatalog(Served(m.peer), m.participant.id, m.exchange.catalogUuid)
  }

  function CycleLog(members: seq<Member>): seq<Outcome> {
    seq(|members|, i requires 0 <= i < |members| => Cached(Crawled(members[i])))
  }

  ghost predicate DistinctIds(members: seq<Member>) {
    forall i, j :: 0 <= i < j < |members| ==> members[i].participant.id != members[j].participant.id
  }

  /** The member answers an unauthenticated request with what it serves. */
  ghost predicate Answering(m: Member) {
    && !m.participant.requiresDcp
    && m.exchange.send(m.participant.catalogRequestUrl, OPEN_PARTICIPANT_PLACEHOLDER_AUTH)
       == DidDocuments.Response(200, Some(Served(m.peer)))
  }

  /**
   Bottom-up, every broker has completed a cycle in which each member answered, its cache held nobody but
   its members before, and its listing is a right answer of the cache after that cycle.
   */
  ghost predicate Settled(peer: Peer) {
    match peer
    case Leaf(_) => true
    case Broker(members, before, listing, _) =>
      && DistinctIds(members)
      && (forall i :: 0 <= i < |members| ==> Answering(members[i]) && Settled(members[i].peer))
      && KeyedByOrigin(before)
      && (forall n :: n in before ==> exists i :: 0 <= i < |members| && members[i].participant.id == n)
      && Answers(ApplyAll(before, CycleLog(members)), ALL, listing)
  }

  /** The datasets of all leaves, broker by broker. */
  function LeafDatasets(peer: Peer): seq<Dataset>
    decreases peer, 1
  {
    match peer
    case Leaf(body) => DatasetsOf(body)
    case Broker(members, _, _, _) => MemberLeafDatasets(members)
  }

  function MemberLeafDatasets(members: seq<Member>): seq<Dataset>
    decreases members, 0
  {
    if members == [] then []
    else MemberLeafDatasets(members[..|members| - 1]) + LeafDatasetsBehind(members[|members| - 1])
  }

  function LeafDatasetsBehind(m: Member): seq<Dataset>
    decreases m, 2
  {
    LeafDatasets(m.peer)
  }

  /** The cycle log of a settled broker is the one a crawl of its members produces. */
  lemma CycleLogIsCrawled(libs: Jws.Libs, members: seq<Member>, i: nat)
    requires i < |members| && Answering(members[i])
    ensures Explains(CycleLog(members)[i], CrawlResult(libs, members[i].participant, None, members[i].exchange))
  {
    hide ParsedCatalog;
  }

  lemma CacheAfterStep(before: Store, members: seq<Member>, k: nat)
    requires k < |members|
    ensures ApplyAll(before, CycleLog(members)[..k + 1])
         == ApplyAll(before, CycleLog(members)[..k])[members[k].participant.id := Crawled(members[k])]
  {
    hide ParsedCatalog, Served;
    CrawledOrigin(members[k]);
    assert CycleLog(members)[..k + 1][..k] == CycleLog(members)[..k];
    assert CycleLog(members)[..k + 1][k] == Cached(Crawled(members[k]));
  }

  lemma {:induction false} CacheAfterCycle(before: Store, members: seq<Member>, k: nat)
    requires DistinctIds(members) && k <= |members|
    ensures var m := ApplyAll(before, CycleLog(members)[..k]);
      && (forall n :: n in m <==> n in before || exists i :: 0 <= i < k && members[i].participant.id == n)
      && (forall i :: 0 <= i < k ==> m[members[i].participant.id] == Crawled(members[i]))
  {
    hide Crawled, ApplyAll, CycleLog;
    if k == 0 {
      assert ApplyAll(before, CycleLog(members)[..0]) == before by { NothingApplied(before, CycleLog(members)); }
    } else {
      CacheAfterCycle(before, members, k - 1);
      CacheAfterStep(before, members, k - 1);
    }
  }

  lemma NothingApplied(m: Store, log: seq<Outcome>)
    ensures ApplyAll(m, log[..0]) == m
  {
  }

  function CrawledAll(members: seq<Member>): seq<Catalog> {
    seq(|members|, i requires 0 <= i < |members| => Crawled(members[i]))
  }

  /** After the cycle the cache lists exactly what was crawled from the members. */
  lemma CacheListsCrawled(before: Store, members: seq<Member>)
    requires DistinctIds(members)
    requires forall n :: n in before ==> exists i :: 0 <= i < |members| && members[i].participant.id == n
    ensures Lists(ApplyAll(before, CycleLog(members)), CrawledAll(members))
  {
    hide ParsedCatalog;
    CacheAfterCycle(before, members, |members|);
    assert CycleLog(members)[..|members|] == CycleLog(members);
    var m, l := ApplyAll(before, CycleLog(members)), CrawledAll(members);
    forall i | 0 <= i < |l| ensures l[i].originNode == members[i].participant.id {
      CrawledOrigin(members[i]);
    }
    forall c ensures c in l <==> c.originNode in m && m[c.originNode] == c {
      if c.originNode in m && m[c.originNode] == c {
        var i :| 0 <= i < |members| && members[i].participant.id == c.originNode;
        assert l[i] == c;
      }
    }
  }

  /** Once its members have settled and answered, a broker has a listing with which it is settled too. */
  lemma BrokerCanSettle(before: Store, members: seq<Member>, uuids: FreshIds) returns (listing: seq<Catalog>)
    requires DistinctIds(members)
    requires forall i :: 0 <= i < |members| ==> Answering(members[i]) && Settled(members[i].peer)
    requires KeyedByOrigin(before)
    requires forall n :: n in before ==> exists i :: 0 <= i < |members| && members[i].participant.id == n
    ensures Settled(Broker(members, before, listing, uuids))
  {
    hide CrawledAll, CycleLog, ApplyAll, Answers, Lists, SortedById;
    CacheListsCrawled(before, members);
    var m := ApplyAll(before, CycleLog(members));
    ListingSorted(m, CrawledAll(members));
    listing := SortById(CrawledAll(members));
    ListingAnswersAll(m, listing);
  }

  lemma CrawledOrigin(m: Member)
    ensures Crawled(m).originNode == m.participant.id
    ensures Crawled(m).datasets == DatasetsOf(Served(m.peer))
  {
  }

  lemma {:induction false} MembersConserve(members: seq<Member>)
    requires forall i :: 0 <= i < |members| ==> Settled(members[i].peer)
    ensures multiset(FlatMap(DatasetsIn, CrawledAll(members))) == multiset(MemberLeafDatasets(members))
    decreases members, 0
  {
    hide ParsedCatalog, DatasetsOf;
    if members != [] {
      var front, last := members[..|members| - 1], members[|members| - 1];
      MembersConserve(front);
      MemberConserves(last);
      assert CrawledAll(members)[..|members| - 1] == CrawledAll(front);
    }
  }

  lemma {:induction false} MemberConserves(m: Member)
    requires Settled(m.peer)
    ensures multiset(Crawled(m).datasets) == multiset(LeafDatasetsBehind(m))
    decreases m, 2
  {
    CrawledOrigin(m);
    FederationConserves(m.peer);
  }

  /** What a broker serves is, as a multiset, what its cache lists. */
  lemma BrokerServes(peer: Peer)
    requires peer.Broker? && Settled(peer)
    ensures multiset(DatasetsOf(Served(peer))) == multiset(FlatMap(DatasetsIn, CrawledAll(peer.members)))
  {
    hide ParsedCatalog, DatasetsOf, CatalogDocument, CatalogJson;
    var crawled, listing := CrawledAll(peer.members), peer.listing;
    var m := ApplyAll(peer.before, CycleLog(peer.members));
    CacheListsCrawled(peer.before, peer.members);
    SameContents(m, crawled, listing);
    FlatMapPermutation(DatasetsIn, crawled, listing);
    ServedDatasets(peer);
    ListedAreClean(m, crawled, listing, peer.members);
  }

  lemma SameContents(m: Store, l: seq<Catalog>, listing: seq<Catalog>)
    requires Lists(m, l) && Answers(m, ALL, listing)
    ensures multiset(l) == multiset(listing)
    ensures forall c :: c in listing ==> c in l
  {
    assert Matching(m, ALL) == m;
    var l' :| Lists(Matching(m, ALL), l') && SortedById(l') && listing == Page(l', ALL);
    assert listing == l';
    SameElementsSameMultiset(l, listing);
  }

  lemma ServedDatasets(peer: Peer)
    requires peer.Broker?
    ensures DatasetsOf(Served(peer)) == Map(Erase, FlatMap(DatasetsIn, peer.listing))
  {
    hide CatalogDocument, CatalogJson;
    ResponseRoundTrip(None, peer.listing, peer.uuids, "", "");
    NothingFiltered(FlatMap(DatasetsIn, peer.listing));
  }

  /** Crawled datasets have no properties left to lose. */
  lemma ListedAreClean(m: Store, crawled: seq<Catalog>, listing: seq<Catalog>, members: seq<Member>)
    requires crawled == CrawledAll(members)
    requires forall c :: c in listing ==> c in crawled
    ensures Map(Erase, FlatMap(DatasetsIn, listing)) == FlatMap(DatasetsIn, listing)
  {
    hide ParsedCatalog;
    forall c | c in listing ensures Map(Erase, c.datasets) == c.datasets {
      var i :| 0 <= i < |members| && crawled[i] == c;
      ParsedIsClean(Served(members[i].peer), members[i].participant.id, members[i].exchange.catalogUuid);
    }
    CleanFlat(listing);
  }

  lemma {:induction false} CleanFlat(listing: seq<Catalog>)
    requires forall c :: c in listing ==> Map(Erase, c.datasets) == c.datasets
    ensures Map(Erase, FlatMap(DatasetsIn, listing)) == FlatMap(DatasetsIn, listing)
  {
    if listing != [] {
      var front, last := listing[..|listing| - 1], listing[|listing| - 1];
      CleanFlat(front);
      MapAppend(Erase, FlatMap(DatasetsIn, front), last.datasets);
    }
  }

  /**
   Federation conserves datasets: whatever the depth of the tree and in whatever order catalog ids sort,
   the datasets served at the root are, with multiplicity, those of all leaves together.
   */
  lemma {:induction false} FederationConserves(peer: Peer)
    requires Settled(peer)
    ensures multiset(DatasetsOf(Served(peer))) == multiset(LeafDatasets(peer))
    decreases peer, 1
  {
    hide DatasetsOf, Served;
    if peer.Broker? {
      BrokerServes(peer);
      MembersConserve(peer.members);
    } else {
      assert Served(peer) == peer.body by { LeafServes(peer); }
    }
  }

  lemma LeafServes(peer: Peer)
    requires peer.Leaf?
    ensures Served(peer) == peer.body
  {
  }
}
