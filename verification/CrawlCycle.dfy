/** The crawl cycle (`crates/crawler/src/lib.rs`): fetch each participant, cache what parses, count. */
module CrawlCycle {
  import opened Wrappers
  import opened Json
  import opened CatalogCore
  import opened CatalogCache
  import opened Jws
  import opened Holder
  import CatalogParser
  import OxigraphCache
  import DidDocuments

  const OPEN_PARTICIPANT_PLACEHOLDER_AUTH := "federated-catalog-rs-crawler-anonymous"

  datatype Participant = Participant(id: string, catalogRequestUrl: string, requiresDcp: bool, providerDid: Option<string>)

  datatype CrawlError = NoHolderIdentity | NoProviderDid | RequestFailed | HttpStatus(status: nat) | MalformedJson | NotCached

  /** One request: when it is made, the random ids it draws, and how the network answers. */
  datatype Exchange = Exchange(
    now: DidDocuments.Seconds, accessJti: string, tokenJti: string, catalogUuid: string, send: (string, string) -> DidDocuments.Fetch)

  function AuthorizationHeader(libs: Libs, p: Participant, holder: Option<HolderIdentity>, x: Exchange): Result<string, CrawlError> {
    if !p.requiresDcp then Ok(OPEN_PARTICIPANT_PLACEHOLDER_AUTH)
    else
      match (holder, p.providerDid)
      case (None, _) => Err(NoHolderIdentity)
      case (_, None) => Err(NoProviderDid)
      case (Some(h), Some(did)) => Ok("Bearer " + MintSelfIssuedToken(libs, h, did, x.now, x.accessJti, x.tokenJti))
  }

  /** The body of a successful response; everything else is this participant's failure. */
  function FetchBody(libs: Libs, p: Participant, holder: Option<HolderIdentity>, x: Exchange): Result<Json, CrawlError> {
    var header :- AuthorizationHeader(libs, p, holder, x);
    match x.send(p.catalogRequestUrl, header)
    case TransportError => Err(RequestFailed)
    case Response(status, body) =>
      if !DidDocuments.IsSuccess(status) then Err(HttpStatus(status))
      else
        match body
        case None => Err(MalformedJson)
        case Some(v) => Ok(v)
  }

  function CrawlResult(libs: Libs, p: Participant, holder: Option<HolderIdentity>, x: Exchange): Result<Catalog, CrawlError> {
    var body :- FetchBody(libs, p, holder, x);
    Ok(CatalogParser.ParsedCatalog(body, p.id, x.catalogUuid))
  }

  method CrawlOne(libs: Libs, p: Participant, holder: Option<HolderIdentity>, x: Exchange) returns (r: Result<Catalog, CrawlError>)
    ensures r == CrawlResult(libs, p, holder, x)
  {
    hide FetchBody, CatalogParser.ParsedCatalog;
    var body :- FetchBody(libs, p, holder, x);
    var catalog := CatalogParser.ParseCatalogResponse(body, p.id, x.catalogUuid);
    r := Ok(catalog);
  }

  // ---------------------------------------------------------------- when a crawl succeeds

  /** The `Authorization` value sent: the placeholder, or a minted token if there is a holder and a provider DID. */
  ghost predicate Sends(libs: Libs, p: Participant, holder: Option<HolderIdentity>, x: Exchange, header: string) {
    if !p.requiresDcp then header == "federated-catalog-rs-crawler-anonymous"
    else
      && holder.Some? && p.providerDid.Some?
      && header == "Bearer " + MintSelfIssuedToken(libs, holder.value, p.providerDid.value, x.now, x.accessJti, x.tokenJti)
  }

  lemma SendsExactly(libs: Libs, p: Participant, holder: Option<HolderIdentity>, x: Exchange, header: string)
    ensures AuthorizationHeader(libs, p, holder, x) == Ok(header) <==> Sends(libs, p, holder, x, header)
  {
    hide MintSelfIssuedToken;
  }

  /** A header can be sent and is answered with a status from 200 to 299 and this JSON. */
  ghost predicate Succeeds(libs: Libs, p: Participant, holder: Option<HolderIdentity>, x: Exchange, v: Json) {
    exists header, status: nat ::
      && Sends(libs, p, holder, x, header)
      && x.send(p.catalogRequestUrl, header) == DidDocuments.Response(status, Some(v)) && 200 <= status < 300
  }

  lemma FetchesExactly(libs: Libs, p: Participant, holder: Option<HolderIdentity>, x: Exchange, v: Json)
    ensures FetchBody(libs, p, holder, x) == Ok(v) <==> Succeeds(libs, p, holder, x, v)
  {
    hide AuthorizationHeader, Sends;
    var header := AuthorizationHeader(libs, p, holder, x);
    if header.Ok? {
      SendsExactly(libs, p, holder, x, header.value);
    }
    if h, status: nat :|
      && Sends(libs, p, holder, x, h)
      && x.send(p.catalogRequestUrl, h) == DidDocuments.Response(status, Some(v)) && 200 <= status < 300
    {
      SendsExactly(libs, p, holder, x, h);
    }
  }

  /** A crawl yields a catalog exactly if the request succeeds, and then it is the parse of the answer. */
  lemma CrawlsExactly(libs: Libs, p: Participant, holder: Option<HolderIdentity>, x: Exchange, c: Catalog)
    ensures CrawlResult(libs, p, holder, x) == Ok(c) <==>
            exists v :: Succeeds(libs, p, holder, x, v) && c == CatalogParser.ParsedCatalog(v, p.id, x.catalogUuid)
  {
    hide FetchBody, Succeeds, CatalogParser.ParsedCatalog;
    forall v ensures FetchBody(libs, p, holder, x) == Ok(v) <==> Succeeds(libs, p, holder, x, v) {
      FetchesExactly(libs, p, holder, x, v);
    }
    var body := FetchBody(libs, p, holder, x);
    if body.Ok? {
      assert Succeeds(libs, p, holder, x, body.value);
    }
  }

  /** Every other crawl fails with the error of the stage it got to. */
  lemma FailsExactly(libs: Libs, p: Participant, holder: Option<HolderIdentity>, x: Exchange, e: CrawlError)
    ensures CrawlResult(libs, p, holder, x) == Err(e) <==>
            || (p.requiresDcp && holder.None? && e == NoHolderIdentity)
            || (p.requiresDcp && holder.Some? && p.providerDid.None? && e == NoProviderDid)
            || exists header ::
                 && Sends(libs, p, holder, x, header)
                 && match x.send(p.catalogRequestUrl, header)
                    case TransportError => e == RequestFailed
                    case Response(status, body) =>
                      if !(200 <= status < 300) then e == HttpStatus(status) else body.None? && e == MalformedJson
  {
    hide MintSelfIssuedToken, CatalogParser.ParsedCatalog;
    var header := AuthorizationHeader(libs, p, holder, x);
    if header.Ok? {
      SendsExactly(libs, p, holder, x, header.value);
    }
  }

  /** Any other status is the failure it says, whatever the body, and no cache changes. */
  lemma BadStatusFails(
    libs: Libs, p: Participant, holder: Option<HolderIdentity>, x: Exchange, header: string, status: nat, body: Option<Json>,
    m: Store, o: Outcome)
    requires Sends(libs, p, holder, x, header)
    requires x.send(p.catalogRequestUrl, header) == DidDocuments.Response(status, body) && !(200 <= status < 300)
    requires Explains(o, CrawlResult(libs, p, holder, x))
    ensures o == Failed(HttpStatus(status)) && Apply(m, o) == m
  {
    hide AuthorizationHeader, Sends;
    SendsExactly(libs, p, holder, x, header);
  }

  // ---------------------------------------------------------------- one cycle

  /** What became of one participant; a failed upsert may have lost the entry it was to replace. */
  datatype Outcome = Cached(catalog: Catalog) | StoreFailed(catalog: Catalog, lost: bool) | Failed(error: CrawlError)

  predicate Explains(o: Outcome, r: Result<Catalog, CrawlError>) {
    match o
    case Cached(c) => r == Ok(c)
    case StoreFailed(c, _) => r == Ok(c)
    case Failed(e) => r == Err(e)
  }

  function Apply(m: Store, o: Outcome): Store {
    match o
    case Cached(c) => m[c.originNode := c]
    case StoreFailed(c, lost) => if lost then m - {c.originNode} else m
    case Failed(_) => m
  }

  function ApplyAll(m: Store, log: seq<Outcome>): Store {
    if log == [] then m else Apply(ApplyAll(m, log[..|log| - 1]), log[|log| - 1])
  }

  datatype CrawlSummary = CrawlSummary(attempted: nat, succeeded: nat, failed: nat, failures: seq<(string, CrawlError)>)

  function ErrorOf(o: Outcome): CrawlError {
    if o.Failed? then o.error else NotCached
  }

  function FailuresOf(participants: seq<Participant>, log: seq<Outcome>): seq<(string, CrawlError)>
    requires |log| <= |participants|
  {
    if log == [] then []
    else
      var i := |log| - 1;
      FailuresOf(participants, log[..i]) + if log[i].Cached? then [] else [(participants[i].id, ErrorOf(log[i]))]
  }

  /** Everyone is attempted, succeeded and failed add up, and the failures list who failed in order. */
  ghost predicate Summarizes(summary: CrawlSummary, participants: seq<Participant>, log: seq<Outcome>) {
    && |log| <= |participants|
    && summary.attempted == |log|
    && summary.attempted == summary.succeeded + summary.failed
    && summary.failed == |summary.failures|
    && summary.failures == FailuresOf(participants, log)
  }

  /** Every participant that failed is listed, right after those that failed before it, and nobody else is. */
  lemma {:induction false} FailuresInOrder(participants: seq<Participant>, log: seq<Outcome>, i: nat)
    requires i < |log| <= |participants|
    ensures
      var before, failures := |FailuresOf(participants, log[..i])|, FailuresOf(participants, log);
      && before <= |failures| <= before + |log| - i
      && (!log[i].Cached? ==>
            before < |failures| && failures[before] == (participants[i].id, if log[i].Failed? then log[i].error else NotCached))
      && ((forall j :: i <= j < |log| ==> log[j].Cached?) ==> |failures| == before)
  {
    if i < |log| - 1 {
      var front := log[..|log| - 1];
      FailuresInOrder(participants, front, i);
      assert front[..i] == log[..i];
      assert front[i] == log[i];
    }
  }

  lemma SummarizesStep(before: CrawlSummary, participants: seq<Participant>, log: seq<Outcome>, o: Outcome, after: CrawlSummary)
    requires Summarizes(before, participants, log) && |log| < |participants|
    requires after == if o.Cached? then before.(attempted := before.attempted + 1, succeeded := before.succeeded + 1)
                      else before.(attempted := before.attempted + 1, failed := before.failed + 1,
                                   failures := before.failures + [(participants[|log|].id, ErrorOf(o))])
    ensures Summarizes(after, participants, log + [o])
  {
    assert (log + [o])[..|log|] == log;
  }

  /** Each entry of the log is the outcome of crawling that participant. */
  ghost predicate Explained(
    libs: Libs, participants: seq<Participant>, holder: Option<HolderIdentity>, exchanges: nat -> Exchange, log: seq<Outcome>)
  {
    && |log| <= |participants|
    && forall i :: 0 <= i < |log| ==> Explains(log[i], CrawlResult(libs, participants[i], holder, exchanges(i)))
  }

  /**
   One cycle over every participant. No failure aborts it; `log` says what became of each participant,
   and the cache and the summary are exactly what the log amounts to.
   */
  method CrawlOnce(
    libs: Libs, participants: seq<Participant>, holder: Option<HolderIdentity>, cache: OxigraphCache.OxigraphCatalogCache,
    exchanges: nat -> Exchange)
    returns (summary: CrawlSummary, ghost log: seq<Outcome>)
    requires cache.Valid()
    modifies cache, cache.store
    ensures cache.Valid()
    ensures |log| == |participants|
    ensures Explained(libs, participants, holder, exchanges, log)
    ensures cache.model == ApplyAll(old(cache.model), log)
    ensures Summarizes(summary, participants, log)
  {
    hide CrawlResult, Summarizes, Explained, ApplyAll;
    summary, log := CrawlSummary(0, 0, 0, []), [];
    NothingLogged(libs, participants, holder, exchanges, cache.model);
    for n := 0 to |participants|
      invariant cache.Valid()
      invariant |log| == n
      invariant Explained(libs, participants, holder, exchanges, log)
      invariant cache.model == ApplyAll(old(cache.model), log)
      invariant Summarizes(summary, participants, log)
    {
      ghost var before, m := summary, cache.model;
      ghost var outcome: Outcome;
      summary := summary.(attempted := summary.attempted + 1);
      var crawled := CrawlOne(libs, participants[n], holder, exchanges(n));
      if crawled.Ok? {
        var stored := cache.Upsert(crawled.value);
        if stored.Ok? {
          outcome := Cached(crawled.value);
          summary := summary.(succeeded := summary.succeeded + 1);
        } else {
          outcome := StoreFailed(crawled.value, cache.model != m);
          summary := summary.(failed := summary.failed + 1, failures := summary.failures + [(participants[n].id, NotCached)]);
        }
      } else {
        outcome := Failed(crawled.error);
        summary := summary.(failed := summary.failed + 1, failures := summary.failures + [(participants[n].id, crawled.error)]);
      }
      SummarizesStep(before, participants, log, outcome, summary);
      LogStep(libs, participants, holder, exchanges, old(cache.model), log, outcome);
      log := log + [outcome];
    }
  }

  lemma NothingLogged(libs: Libs, participants: seq<Participant>, holder: Option<HolderIdentity>, exchanges: nat -> Exchange, m: Store)
    ensures Summarizes(CrawlSummary(0, 0, 0, []), participants, [])
    ensures Explained(libs, participants, holder, exchanges, [])
    ensures ApplyAll(m, []) == m
  {
  }

  lemma LogStep(
    libs: Libs, participants: seq<Participant>, holder: Option<HolderIdentity>, exchanges: nat -> Exchange,
    m: Store, log: seq<Outcome>, o: Outcome)
    requires Explained(libs, participants, holder, exchanges, log) && |log| < |participants|
    requires Explains(o, CrawlResult(libs, participants[|log|], holder, exchanges(|log|)))
    ensures Explained(libs, participants, holder, exchanges, log + [o])
    ensures ApplyAll(m, log + [o]) == Apply(ApplyAll(m, log), o)
  {
    hide CrawlResult, Explains, Apply;
    assert (log + [o])[..|log|] == log;
  }

  // ---------------------------------------------------------------- whole runs

  function ApplyCycles(m: Store, logs: seq<seq<Outcome>>): Store {
    if logs == [] then m else ApplyAll(ApplyCycles(m, logs[..|logs| - 1]), logs[|logs| - 1])
  }

  /** Every entry of the logs is the outcome of crawling that participant in that cycle. */
  ghost predicate RunOf(
    libs: Libs, participants: seq<Participant>, holder: Option<HolderIdentity>, exchanges: (nat, nat) -> Exchange,
    logs: seq<seq<Outcome>>)
  {
    forall c :: 0 <= c < |logs| ==>
      |logs[c]| == |participants| && Explained(libs, participants, holder, (i: nat) => exchanges(c, i), logs[c])
  }

  /** The scheduler's loop, for any number of cycles. */
  method RunScheduler(
    libs: Libs, participants: seq<Participant>, holder: Option<HolderIdentity>, cache: OxigraphCache.OxigraphCatalogCache,
    exchanges: (nat, nat) -> Exchange, cycles: nat)
    returns (ghost logs: seq<seq<Outcome>>)
    requires cache.Valid()
    modifies cache, cache.store
    ensures cache.Valid()
    ensures |logs| == cycles && RunOf(libs, participants, holder, exchanges, logs)
    ensures cache.model == ApplyCycles(old(cache.model), logs)
  {
    hide CrawlResult, Explained, ApplyAll;
    logs := [];
    for n := 0 to cycles
      invariant cache.Valid()
      invariant |logs| == n && RunOf(libs, participants, holder, exchanges, logs)
      invariant cache.model == ApplyCycles(old(cache.model), logs)
    {
      var summary, log := CrawlOnce(libs, participants, holder, cache, (i: nat) => exchanges(n, i));
      assert (logs + [log])[..|logs|] == logs;
      logs := logs + [log];
    }
  }

  /** The outcome rewrites or loses the entry of `n`. */
  predicate Touches(o: Outcome, n: NodeId) {
    match o
    case Cached(c) => c.originNode == n
    case StoreFailed(c, lost) => lost && c.originNode == n
    case Failed(_) => false
  }

  lemma {:induction false} UntouchedByCycle(m: Store, log: seq<Outcome>, n: NodeId)
    requires forall i :: 0 <= i < |log| ==> !Touches(log[i], n)
    ensures n in ApplyAll(m, log) <==> n in m
    ensures n in m ==> ApplyAll(m, log)[n] == m[n]
  {
    if log != [] {
      UntouchedByCycle(m, log[..|log| - 1], n);
    }
  }

  lemma {:induction false} LastInCycle(m: Store, log: seq<Outcome>, n: NodeId, i: nat)
    requires i < |log| && Touches(log[i], n)
    requires forall j :: i < j < |log| ==> !Touches(log[j], n)
    ensures n in ApplyAll(m, log) <==> log[i].Cached?
    ensures log[i].Cached? ==> ApplyAll(m, log)[n] == log[i].catalog
  {
    if i < |log| - 1 {
      LastInCycle(m, log[..|log| - 1], n, i);
    }
  }

  ghost predicate TouchedLast(logs: seq<seq<Outcome>>, n: NodeId, c: nat, i: nat) {
    && c < |logs| && i < |logs[c]|
    && Touches(logs[c][i], n)
    && (forall j :: i < j < |logs[c]| ==> !Touches(logs[c][j], n))
    && (forall d, j :: c < d < |logs| && 0 <= j < |logs[d]| ==> !Touches(logs[d][j], n))
  }

  /**
   The history of a node over any number of cycles: its entry is what the last outcome that touched it
   left - the catalog cached then, or nothing if a failed upsert lost it - whatever failed since.
   */
  lemma {:induction false} RunHistory(m: Store, logs: seq<seq<Outcome>>, n: NodeId, c: nat, i: nat)
    requires TouchedLast(logs, n, c, i)
    ensures n in ApplyCycles(m, logs) <==> logs[c][i].Cached?
    ensures logs[c][i].Cached? ==> ApplyCycles(m, logs)[n] == logs[c][i].catalog
  {
    var front := logs[..|logs| - 1];
    if c == |logs| - 1 {
      LastInCycle(ApplyCycles(m, front), logs[c], n, i);
    } else {
      RunHistory(m, front, n, c, i);
      UntouchedByCycle(ApplyCycles(m, front), logs[|logs| - 1], n);
    }
  }

  lemma {:induction false} UntouchedByRun(m: Store, logs: seq<seq<Outcome>>, n: NodeId)
    requires forall c, i :: 0 <= c < |logs| && 0 <= i < |logs[c]| ==> !Touches(logs[c][i], n)
    ensures n in ApplyCycles(m, logs) <==> n in m
    ensures n in m ==> ApplyCycles(m, logs)[n] == m[n]
  {
    if logs != [] {
      UntouchedByRun(m, logs[..|logs| - 1], n);
      UntouchedByCycle(ApplyCycles(m, logs[..|logs| - 1]), logs[|logs| - 1], n);
    }
  }

  ghost predicate NoStoreErrors(logs: seq<seq<Outcome>>) {
    forall c, i :: 0 <= c < |logs| && 0 <= i < |logs[c]| ==> !logs[c][i].StoreFailed?
  }

  /** In cycle `c`, participant `i` answered with `v`, and nobody succeeded for node `n` after that. */
  ghost predicate LastSuccess(
    libs: Libs, participants: seq<Participant>, holder: Option<HolderIdentity>, exchanges: (nat, nat) -> Exchange, cycles: nat,
    n: NodeId, c: nat, i: nat, v: Json)
  {
    && c < cycles && i < |participants| && participants[i].id == n
    && Succeeds(libs, participants[i], holder, exchanges(c, i), v)
    && forall d, j, w :: (c < d < cycles && 0 <= j < |participants|) || (d == c && i < j < |participants|) ==>
         participants[j].id != n || !Succeeds(libs, participants[j], holder, exchanges(d, j), w)
  }

  lemma SuccessTouches(
    libs: Libs, p: Participant, holder: Option<HolderIdentity>, x: Exchange, o: Outcome, n: NodeId)
    requires Explains(o, CrawlResult(libs, p, holder, x))
    ensures Touches(o, n) ==> p.id == n && exists v :: Succeeds(libs, p, holder, x, v)
  {
    hide FetchBody, Succeeds;
    if Touches(o, n) {
      FetchesExactly(libs, p, holder, x, FetchBody(libs, p, holder, x).value);
    }
  }

  /** Without store errors the cache holds the parse of a node's last successful response. */
  lemma CacheHoldsLastSuccess(
    libs: Libs, participants: seq<Participant>, holder: Option<HolderIdentity>, exchanges: (nat, nat) -> Exchange,
    logs: seq<seq<Outcome>>, m: Store, n: NodeId, c: nat, i: nat, v: Json)
    requires RunOf(libs, participants, holder, exchanges, logs) && NoStoreErrors(logs)
    requires LastSuccess(libs, participants, holder, exchanges, |logs|, n, c, i, v)
    ensures n in ApplyCycles(m, logs)
    ensures ApplyCycles(m, logs)[n] == CatalogParser.ParsedCatalog(v, n, exchanges(c, i).catalogUuid)
  {
    hide CrawlResult, Succeeds, CatalogParser.ParsedCatalog;
    var crawled := CatalogParser.ParsedCatalog(v, n, exchanges(c, i).catalogUuid);
    CrawlsExactly(libs, participants[i], holder, exchanges(c, i), crawled);
    assert logs[c][i] == Cached(crawled);
    forall d, j | (c < d < |logs| && 0 <= j < |participants|) || (d == c && i < j < |participants|)
      ensures !Touches(logs[d][j], n)
    {
      SuccessTouches(libs, participants[j], holder, exchanges(d, j), logs[d][j], n);
    }
    assert crawled.originNode == n by { ParsedOrigin(v, n, exchanges(c, i).catalogUuid); }
    RunHistory(m, logs, n, c, i);
  }

  lemma ParsedOrigin(v: Json, n: NodeId, freshId: string)
    ensures CatalogParser.ParsedCatalog(v, n, freshId).originNode == n
  {
  }

  /** A node nobody is configured for, or whose every crawl failed, keeps the entry it had before the run. */
  lemma CacheKeepsUncrawled(
    libs: Libs, participants: seq<Participant>, holder: Option<HolderIdentity>, exchanges: (nat, nat) -> Exchange,
    logs: seq<seq<Outcome>>, m: Store, n: NodeId)
    requires RunOf(libs, participants, holder, exchanges, logs)
    requires forall c, i, v :: 0 <= c < |logs| && 0 <= i < |participants| ==>
               participants[i].id != n || !Succeeds(libs, participants[i], holder, exchanges(c, i), v)
    ensures n in ApplyCycles(m, logs) <==> n in m
    ensures n in m ==> ApplyCycles(m, logs)[n] == m[n]
  {
    hide CrawlResult, Succeeds;
    forall c, i | 0 <= c < |logs| && 0 <= i < |logs[c]| ensures !Touches(logs[c][i], n) {
      SuccessTouches(libs, participants[i], holder, exchanges(c, i), logs[c][i], n);
    }
    UntouchedByRun(m, logs, n);
  }
}
