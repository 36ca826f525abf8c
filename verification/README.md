# Federated catalog broker: a verified model

The broker crawls the catalogs of its participants, caches one catalog per origin node, and serves the
aggregate again - to callers, and to other brokers that crawl it in turn. This project models four
connected parts of it and proves what they promise, separately and together:

- **Wire** (`Json`, `CatalogCore`, `CatalogParser`, `ParserProperties`, `ParserMeaning`, `DspApi`,
  `WireRoundTrip`, `WireFormat`, `ResponseProperties`, `ServiceResolution`): the recursive parser that pushes into one catalog, refined to a declarative
  description; the renderer with its flat and its nested form; both composed.
- **Cache** (`CatalogCache`, `MemoryCache`, `NodeIri`, `QuadStore`, `OxigraphCache`, `BackendRefinement`,
  `ConcurrentCache`, `ConcurrentReads`, `SequentialSteps`): what a cache means, the map, the quad store that simulates it, and
  the steps of concurrent readers and writers.
- **DCP** (`Base64Url`, `Jws`, `DidWeb`, `DidDocuments`, `Holder`, `Verifier`, `VerifierChecks`,
  `VerifierProperties`, `Handshake`, `TokenClaims`, `CredentialBinding`): tokens, identifiers and both sides of the presentation protocol, under a clock that may
  read anything at every reading.
- **Cycle** (`CrawlCycle`, `DspEndpoints`, `EndpointProperties`, `Federation`, `ExpiredCredentials`, `AuthorizedCrawl`): crawl
  cycles over unbounded runs with arbitrary outcomes, and the theorems that need all of the above.

`Wrappers`, `Seqs`, `Strings` and `Bytes` hold what the others share. Code that updates state in the
original (the parser's catalog, both caches, the credential loop, the crawl cycle and the scheduler) is
written as methods and classes proved against functions; everything else is functions.

The functions of the foreign libraries are parameters of type `Jws.Libs`, known only by `Jws.Lawful`:
printed JSON reads back, a signature verifies under the matching public key, public keys are points.
Nothing is assumed about which other signatures fail. Fresh UUIDs, clock readings (`Seconds`, a `u64` to
which 300 can be added) and answers of the network (`Fetch`) are parameters too.

Where the code and its own comments disagree, the model follows the code:

- `crates/rdf-store/src/lib.rs:472` calls the backends behaviour-equivalent. Operation by operation they
  are (`BackendsAgree`). Under concurrency they are not: a read can miss a node that was cached before the
  read and is cached after it (`ReadMayMissRecrawledNode`). With one writer per node it returns a node that
  was cached when it began, and not deleted since, exactly when no upsert of the node is in flight as its
  graph is loaded (`FinishedReadReturnsExactly`).
- `crates/rdf-store/src/lib.rs:119-120` promises that the cache can be shared across crawl tasks. The quad
  store keeps one quad per graph, however the upserts in flight end, exactly when no two of them are of one
  node with different catalogs and none meets another catalog of its node (`SafeExactlyWhenDisciplined`).
- `crates/rdf-store/src/lib.rs:177-179` wants reproducible pages. Sorting by catalog id gives them exactly
  when no two nodes share a catalog id (`AnswersAreDeterminedExactlyWhenIdsAreDistinct`).
- `crates/http-api/src/lib.rs:663-667` wants a node without visible datasets to leave no trace. It leaves none
  exactly when two other nodes are cached or there is nothing to see: alone, it gives away its services; next
  to one other node, it turns the document from flat to nested (`HiddenNodeIsHiddenExactly`).
- `crates/http-api/src/dcp.rs:249-258` says "all presented credentials are expired". The error arises exactly
  when all verify, one has expired and none grants anything (`RefusalIsWiderThanItsMessage`), so also next to
  an unexpired credential of another type (`MixedCredentialsAreRefused`).
- `crates/dcp-core/src/lib.rs:104-111` decodes `%3A` and `%3a` and nothing else, so the DID built from a
  host leads back to it exactly if the host contains neither literally (`HolderDidRoundTrip`).

## Model

| member | source | states |
|---|---|---|
| CatalogParser.CatalogUnderConstruction.PushIfNew | crates/crawler/src/lib.rs:211-215 | a parsed service is appended unless its id is already listed |
| CatalogParser.CatalogUnderConstruction.CollectServices | crates/crawler/src/lib.rs:209-217 | the `service` loop adds exactly the identifiable entries, first mention winning, and leaves the datasets alone |
| CatalogParser.CatalogUnderConstruction.TakeAccessService | crates/crawler/src/lib.rs:243-260 | the three shapes of `accessService`: which id the distribution keeps and which service is mentioned |
| CatalogParser.CatalogUnderConstruction.CollectDistributions | crates/crawler/src/lib.rs:235-264 | one distribution per entry, in order, and their services in mention order |
| CatalogParser.CatalogUnderConstruction.CollectDatasets | crates/crawler/src/lib.rs:219-268 | the dataset loop appends exactly the identifiable datasets and their services; entries without id contribute nothing |
| CatalogParser.CatalogUnderConstruction.CollectDatasetsAndServices | crates/crawler/src/lib.rs:205-275 | the mutating parser terminates on every JSON tree and appends the pre-order concatenation of all nesting levels |
| CatalogParser.CatalogUnderConstruction.CollectNested | crates/crawler/src/lib.rs:270-274 | the loop over nested catalogs appends what their levels list, in order |
| CatalogParser.ParseCatalogResponse | crates/crawler/src/lib.rs:185-198 | the catalog has the document's id or the fresh one, the participant's id as origin node, and all datasets and services of the document |
| CatalogParser.AddAllAppend | crates/crawler/src/lib.rs:211-215 | collecting two runs of mentions one after the other is collecting their concatenation |
| ParserProperties.IdsCovered | crates/crawler/src/lib.rs:209-258 | the ids of the listed services are exactly the ids mentioned |
| ParserProperties.FirstMentionWins | crates/crawler/src/lib.rs:206-217 | service ids are pairwise distinct, every listed service is the first mention of its id and vice versa, in mention order |
| ParserProperties.FirstMentionsAreUnique | crates/crawler/src/lib.rs:206-217 | those three properties admit only one list: the parser's |
| ParserProperties.AccessServicesResolve | crates/crawler/src/lib.rs:243-258 | at every nesting level, a distribution whose `accessService` is an object with an id keeps that id, and it names a listed service |
| ParserMeaning.MentionsExactly | crates/crawler/src/lib.rs:280-289 | a value mentions a service with the string at `@id` (or at `id` without `@id`), at `endpointURL` or empty, and at `endpointDescription` if there is one; without an id, none |
| ParserMeaning.LevelsExactly | crates/crawler/src/lib.rs:270-274 | the levels of a document are itself and, recursively, those of the elements of its `catalog` list |
| ParserMeaning.MentionedExactly | crates/crawler/src/lib.rs:209-258 | the services mentioned are, member by member, the entries of `service` and the object-valued `accessService`s of identifiable datasets, at any level |
| ParserMeaning.ParsedServicesExactly | crates/crawler/src/lib.rs:205-258 | the parsed catalog lists only such services, one for every id mentioned, with all its fields where mentions do not conflict |
| ParserMeaning.ListedComeFirst | crates/crawler/src/lib.rs:206-217 | at each level the `service` entries are met before everything embedded in datasets |
| ParserMeaning.TopLevelEntryWins | crates/crawler/src/lib.rs:206-217 | the first top-level `service` entry of an id is in the parsed catalog with all its fields, whatever else mentions the id |
| ParserMeaning.DatasetReadsExactly | crates/crawler/src/lib.rs:219-267 | which entries are datasets, and the id, format and service name of each distribution, member by member |
| ParserMeaning.ParsedDatasetsExactly | crates/crawler/src/lib.rs:219-274 | the parsed catalog has exactly the datasets that `dataset` entries at its levels read as |
| ParserMeaning.ParsedHeaderExactly | crates/crawler/src/lib.rs:185-193 | the catalog's id is the string at `@id` or the fresh one, its participant the string at `participantId` if any |
| DspApi.FlattenCatalogs | crates/http-api/src/lib.rs:626-634 | the loop concatenates datasets and services in query order |
| WireRoundTrip.VisibleExactly | crates/http-api/src/lib.rs:602-607 | filtering keeps each visible dataset with its multiplicity and nothing else |
| WireRoundTrip.VisibleAppend | crates/http-api/src/lib.rs:602-607 | per-node filtering commutes with flattening |
| WireRoundTrip.VisibleMember | crates/http-api/src/lib.rs:602-607 | a dataset is visible if and only if it is cached and authorization is disabled or its id allowed |
| WireRoundTrip.LevelParses | crates/http-api/src/lib.rs:404-471 | one rendered document parses back to its own datasets and services |
| WireRoundTrip.DocumentParses | crates/crawler/src/lib.rs:205-275 | so does a document nested to any depth, levels in pre-order |
| WireRoundTrip.ResponseLists | crates/http-api/src/lib.rs:692-738 | flat or nested, the response lists the visible datasets of the flattened cache in order, and the services of the emitted nodes |
| WireRoundTrip.ResponseRoundTrip | crates/http-api/src/lib.rs:692-738 | for every query result and caller, crawling the response gives exactly the visible datasets (properties erased) and the first-wins services of the emitted nodes |
| WireFormat.FlatDocumentIs | crates/http-api/src/lib.rs:692-705 | for at most one node, the document member by member: types, contexts, fresh ids, offers, datasets, distributions, services |
| WireFormat.NestedDocumentIs | crates/http-api/src/lib.rs:706-738 | for more, the empty wrapper and, member by member, one document per emitted node under its participant id or node id |
| WireFormat.EmittedExactly | crates/http-api/src/lib.rs:711-717 | the emitted nodes are exactly those with a dataset the caller may see |
| WireFormat.DatasetDocumentIs | crates/http-api/src/lib.rs:777-782 | the dataset endpoint answers with a visible dataset of the id, rendered with a context |
| ResponseProperties.ParserNormalForm | crates/crawler/src/lib.rs:205-289 | parse, serve, parse again: same datasets, same services up to endpoint descriptions, and a third round changes nothing |
| ResponseProperties.ReproducedExactly | crates/http-api/src/lib.rs:413-471 | a re-crawl reproduces a catalog if and only if it has no properties, no endpoint descriptions and no repeated service ids |
| ResponseProperties.ListedPresentsVisible | crates/http-api/src/lib.rs:692-738 | position by position the document presents the visible datasets, without a context of their own |
| ResponseProperties.ListingMatchesLookup | crates/http-api/src/lib.rs:753-785 | an id is in the catalog document if and only if the lookup by id answers, with the first occurrence in document order |
| ResponseProperties.ResponseIsWhatIsShown | crates/http-api/src/lib.rs:692-738 | for the same fresh ids, any two caches and callers get the same document if and only if what is shown is the same: flat visible datasets and all services for at most one node, the views of the emitted nodes for more |
| ResponseProperties.NestedResponseIsWhatIsVisible | crates/http-api/src/lib.rs:706-738 | with two or more nodes on both sides, if and only if they agree on the emitted nodes' participants, visible datasets and services |
| ResponseProperties.HiddenNodeIsHiddenExactly | crates/http-api/src/lib.rs:663-667 | a node without visible datasets leaves the document unchanged if and only if two others are cached, or the others (or, alone, it) have nothing to see; in particular a lone node's services are given away |
| Strings.LeqMeans | crates/rdf-store/src/lib.rs:180 | ids are ordered by the first character that differs, a prefix before what it begins |
| Strings.LeqTotal | crates/rdf-store/src/lib.rs:180 | the order sorted by is total and antisymmetric |
| Strings.SortedIsUnique | crates/rdf-store/src/lib.rs:180 | two sorted permutations of the same ids are equal |
| CatalogCache.SortSorts | crates/rdf-store/src/lib.rs:474 | sorting by id gives a sorted permutation |
| CatalogCache.ListingSorted | crates/rdf-store/src/lib.rs:180 | it turns any iteration order into a sorted listing of the same map |
| CatalogCache.AnswersExactly | crates/rdf-store/src/lib.rs:167-188 | an answer is right if and only if it is the slice from `offset`, of at most `limit` elements, of an ascending listing of the selected entries |
| CatalogCache.AnswersAgree | crates/rdf-store/src/lib.rs:167-188 | any two right answers carry the same ids in the same order, are equal under any offset and limit if ids are distinct, and are permutations when not paged |
| CatalogCache.AnswersAreDeterminedExactlyWhenIdsAreDistinct | crates/rdf-store/src/lib.rs:177-186 | every query, under every offset and limit, has one answer only if and only if no two nodes share a catalog id |
| CatalogCache.SingleNodeAnswer | crates/rdf-store/src/lib.rs:102-115 | a query for one node answers its entry or nothing |
| MemoryCache.InMemoryCatalogCache.Upsert | crates/rdf-store/src/lib.rs:161-165 | replaces the entry of the origin node and no other |
| MemoryCache.InMemoryCatalogCache.Query | crates/rdf-store/src/lib.rs:167-188 | whatever the iteration order, the result is the requested slice of an ascending listing of the selected entries, spelled out |
| MemoryCache.InMemoryCatalogCache.Delete | crates/rdf-store/src/lib.rs:190-193 | removes the entry and tells whether there was one |
| Bytes.Utf8Injective | crates/rdf-store/src/lib.rs:355-358 | distinct node ids have distinct bytes |
| NodeIri.PercentEncodeInjective | crates/rdf-store/src/lib.rs:355-358 | percent-encoding (section 2.1 of RFC 3986) is injective on byte strings |
| NodeIri.GraphIriInjective | crates/rdf-store/src/lib.rs:355-358 | distinct nodes never share a graph |
| NodeIri.GraphIriIs | crates/rdf-store/src/lib.rs:355-358 | the name is the fixed prefix and a text that stands for the id's bytes |
| NodeIri.PercentByteIs | crates/rdf-store/src/lib.rs:356 | letters, digits, `-`, `.`, `_` and `~` stay, every other byte becomes `%` and its two hex digits |
| QuadStore.RemoveRefines | crates/rdf-store/src/lib.rs:437-438 | removing a node's quads is removing its entry, whether or not the emptied graph stays listed |
| QuadStore.UpsertRefines | crates/rdf-store/src/lib.rs:434-441 | remove then insert replaces the entry; in between it is absent |
| QuadStore.SubjectPresent | crates/rdf-store/src/lib.rs:408-422 | the subject is present if and only if the node is cached |
| QuadStore.LoadsEntry | crates/rdf-store/src/lib.rs:382-405 | loading a graph gives its node's entry, or nothing for an emptied graph |
| QuadStore.LoadsList | crates/rdf-store/src/lib.rs:454-469 | loading graph after graph lists each entry exactly once |
| QuadStore.QuadIs | crates/rdf-store/src/lib.rs:428-440 | the quad a catalog is stored as |
| QuadStore.QueryRefines | crates/rdf-store/src/lib.rs:444-482 | however many emptied graphs stay listed, a query answers as the map would |
| OxigraphCache.OxigraphCatalogCache.LoadGraph | crates/rdf-store/src/lib.rs:382-405 | a successful load is a matching quad's catalog, or nothing if there is none; other terms are errors |
| OxigraphCache.OxigraphCatalogCache.Upsert | crates/rdf-store/src/lib.rs:427-442 | success is a remove step and an insert step and updates the map; failure keeps or loses the old entry, no other |
| OxigraphCache.OxigraphCatalogCache.LoadAll | crates/rdf-store/src/lib.rs:454-469 | the loop over the listed graphs loads each once |
| OxigraphCache.OxigraphCatalogCache.Query | crates/rdf-store/src/lib.rs:444-482 | a successful query is a right answer of the map, spelled out in the same terms |
| OxigraphCache.OxigraphCatalogCache.Delete | crates/rdf-store/src/lib.rs:484-492 | success tells whether the node was cached and removes it; failure changes nothing |
| BackendRefinement.QuadStoreSimulatesMap | crates/rdf-store/src/lib.rs:425-493 | over every sequence of successful operations the quad store represents what the map holds, and every reply is one the map may give |
| BackendRefinement.BackendsAgree | crates/rdf-store/src/lib.rs:472-482 | run side by side from empty, deletions agree, listings have the same ids in the same order and are equal when no matching nodes share an id |
| BackendRefinement.OtherNodesUnaffected | crates/rdf-store/src/lib.rs:427-492 | upserting or deleting one node leaves every other node's query answer as it was |
| ConcurrentCache.SingleWriterIsDisciplined | crates/crawler/src/lib.rs:75-90 | a single writer never has upserts of one node with different catalogs in flight |
| ConcurrentCache.InvStep | crates/rdf-store/src/lib.rs:427-492 | every step of any reader or writer, failed insertions included, keeps the invariant: one quad per graph, in a listed graph, none but the one being written for a node in flight |
| ConcurrentCache.StoreIsSafe | crates/rdf-store/src/lib.rs:427-442 | every reachable state has at most one quad per graph |
| ConcurrentCache.ReadIsSafe | crates/rdf-store/src/lib.rs:454-469 | at every moment of a read: loaded catalogs are of distinct nodes, were each held during the read, and nodes cached throughout are loaded or pending |
| ConcurrentCache.FinishedReadIsSafe | crates/rdf-store/src/lib.rs:444-482 | a finished read is sorted, has at most one catalog per node, each held at some moment of the read, and one for every node cached throughout |
| ConcurrentCache.ReadMayMissRecrawledNode | crates/rdf-store/src/lib.rs:434-441 | for any two catalogs of a node there is a run with one writer in which a read returns nothing although the node is cached before and after |
| ConcurrentCache.RacingUpsertsMayDuplicate | crates/rdf-store/src/lib.rs:434-441 | from the empty store two writers of one node can end with two quads in one graph |
| ConcurrentCache.RacingUpsertsDuplicate | crates/rdf-store/src/lib.rs:434-441 | in every state, two upserts in flight of one node with different catalogs can finish, and then leave two quads in one graph |
| ConcurrentCache.QuietRunIsSafe | crates/rdf-store/src/lib.rs:119-120 | from a disciplined state, every run that starts no upsert keeps the invariant |
| ConcurrentCache.SafeExactlyWhenDisciplined | crates/rdf-store/src/lib.rs:119-120 | for every well-formed state: every continuation that starts no upsert keeps one quad per graph if and only if the invariant and the discipline hold |
| ConcurrentReads.StillThere | crates/rdf-store/src/lib.rs:434-441 | a node that is held or in flight stays so under every step but its deletion or the failure of its insertion |
| ConcurrentReads.ReadReturnsHeld | crates/rdf-store/src/lib.rs:454-469 | a read returns a node if and only if it is held at the moment its graph is loaded |
| ConcurrentReads.ReadReturnsExactly | crates/rdf-store/src/lib.rs:444-482 | of a node cached when the read began and not lost since: if and only if no upsert of it is in flight at that moment |
| ConcurrentReads.FinishedReadReturnsExactly | crates/rdf-store/src/lib.rs:444-482 | the same of what a finished read returns, for which that moment always exists |
| SequentialSteps.UninterruptedUpsert | crates/rdf-store/src/lib.rs:437-440 | the two steps of an upsert, uninterrupted, are the backend's upsert |
| SequentialSteps.RemovalIsDeletion | crates/rdf-store/src/lib.rs:487-489 | the removal step of a cached node is the backend's deletion |
| SequentialSteps.UninterruptedRead | crates/rdf-store/src/lib.rs:454-481 | a listing step and its load steps, uninterrupted, are the backend's query for everything |
| Base64Url.DecodeEncode | crates/dcp-core/src/lib.rs:40-46 | decoding undoes encoding (section 5 of RFC 4648, no padding) |
| Base64Url.EncodeDecode | crates/dcp-core/src/lib.rs:40-46 | every text that decodes is the encoding of what it decodes to |
| Base64Url.EncodeUsesAlphabet | crates/dcp-core/src/lib.rs:44-46 | the encoding uses only the URL-safe alphabet, so no dot |
| Base64Url.AlphabetIs | crates/dcp-core/src/lib.rs:44-46 | the symbols are those of table 2 of section 5, in its order |
| Base64Url.EncodesInGroups | crates/dcp-core/src/lib.rs:44-46 | three bytes become the four symbols of their 24 bits, most significant first |
| Base64Url.EncodesLeftOver | crates/dcp-core/src/lib.rs:44-46 | one or two bytes left over become two or three symbols |
| Strings.JoinSplit | crates/dcp-core/src/lib.rs:52-60 | splitting loses nothing and no piece contains the separator |
| Strings.SplitJoin | crates/dcp-core/src/lib.rs:91-102 | splitting undoes joining parts that do not contain the separator |
| Jws.JwsRoundTrip | crates/dcp-core/src/lib.rs:78-87 | a signed payload decodes to the same header, payload and signing input, and verifies under the matching key |
| Jws.JwsAgreement | crates/dcp-core/src/lib.rs:51-76 | a token that decodes is its signing input, a dot and a signature, and verification checks exactly these two |
| Jws.VerificationIgnoresTrailingSegments | crates/dcp-core/src/lib.rs:65-76 | verification alone accepts trailing segments; decoding refuses them |
| DidWeb.DidWebResolvesTo | crates/dcp-core/src/lib.rs:89-102 | for any host and path parts the DID resolves to the path's document, or to the well-known one without a path |
| DidWeb.EncodingIsUndone | crates/dcp-core/src/lib.rs:104-111 | decoding a host whose colons were encoded is decoding the host itself |
| DidWeb.DecodesInOnePass | crates/dcp-core/src/lib.rs:104-111 | the two replacements turn every `%3A` and `%3a`, from left to right, into a colon and change nothing else |
| DidWeb.DecodingKeepsPlainHosts | crates/dcp-core/src/lib.rs:104-111 | decoding changes exactly the hosts with a literal `%3A` or `%3a` |
| DidWeb.HolderDidResolvesTo | crates/dcp-core/src/lib.rs:350-351 | the URL any holder's DID resolves to |
| DidWeb.HolderDidRoundTrip | crates/dcp-core/src/lib.rs:342-351 | the DID built from a host resolves to that host's own document route if and only if the host has no literal `%3A` or `%3a` |
| DidDocuments.KeyOfFirstMethod | crates/dcp-core/src/lib.rs:159-186 | a key is found if and only if the first method of that id has a JWK that is this point |
| DidDocuments.JwkExactly | crates/dcp-core/src/lib.rs:172-186 | a JWK is accepted if and only if both coordinates decode to 32 bytes and are a point |
| DidDocuments.ResolvesExactly | crates/dcp-core/src/lib.rs:143-157 | a DID resolves if and only if its URL answers with a status from 200 to 299 and a readable document |
| DidDocuments.DocumentReadsExactly | crates/dcp-core/src/lib.rs:113-141 | a document is readable if and only if each entry of its two lists has its string members; absent lists are empty |
| DidDocuments.OwnDocumentReadsBack | crates/dcp-core/src/lib.rs:267-287 | a published DID document reads back as the party's key and services |
| DidDocuments.OwnKeyIsFound | crates/dcp-core/src/lib.rs:245-257 | the key a party signs with is the one its own document advertises under its key id |
| Verifier.CollectAccess | crates/http-api/src/dcp.rs:205-258 | the credential loop returns the first error, or the union over the unexpired credentials of the expected type, or the all-expired error |
| Verifier.VerifyDcpBearerToken | crates/http-api/src/dcp.rs:125-261 | the whole verification in the order of its checks and clock readings |
| VerifierChecks.AuthenticExactlyWhenVouched | crates/http-api/src/dcp.rs:126-134 | a token authenticates if and only if it is its signing input, a dot and a signature that verifies under the key that the document of its `iss` has for its `kid` |
| VerifierChecks.TokenAcceptedExactly | crates/http-api/src/dcp.rs:126-148 | T1 is accepted if and only if it is authentic, addressed to this connector, unexpired, and carries T2 |
| VerifierChecks.TokenRefusals | crates/http-api/src/dcp.rs:136-148 | an authentic T1 is refused for another audience first, then as expired, then for carrying no T2 |
| VerifierChecks.HolderAnswersExactly | crates/dcp-core/src/lib.rs:446-488 | the holder presents its credential if and only if the token is authentic, addressed to it and unexpired |
| VerifierChecks.QueryYieldsExactly | crates/http-api/src/dcp.rs:166-187 | a presentation is obtained if and only if the first `CredentialService` of the holder's document answers the bearer of T3 with a list of strings that it heads |
| VerifierChecks.PresentationOpensExactly | crates/http-api/src/dcp.rs:189-203 | it opens to these credentials if and only if it is signed under the holder's document and holds them, at least one |
| VerifierChecks.VerdictMeans | crates/http-api/src/dcp.rs:220-246 | a credential is expired unless `exp` is a number after now; otherwise it grants an id if and only if `vc.type` has the expected entry and `vc.credentialSubject.catalogAccess` lists the id |
| VerifierProperties.ConclusionCharacterisation | crates/http-api/src/dcp.rs:205-258 | the loop succeeds if and only if all credentials verify and not "nothing granted while one expired"; an id is granted if and only if an unexpired credential of the expected type lists it |
| VerifierProperties.VerifierCharacterisation | crates/http-api/src/dcp.rs:125-261 | verification succeeds if and only if the token passes, the query yields a presentation that stands, all its credentials verify, and not "nothing granted while one expired"; caller and grant are theirs |
| VerifierProperties.CredentialOrderIrrelevant | crates/http-api/src/dcp.rs:205-258 | with the clock standing still, success and grant do not depend on order or repetition of the credentials |
| VerifierProperties.VerificationOrderIrrelevant | crates/http-api/src/dcp.rs:125-261 | presentations of the same credentials in any order, with or without repetitions, lead to the same verification |
| VerifierProperties.AllExpiredIsRefused | crates/http-api/src/dcp.rs:249-258 | credentials of which all that verify have expired are refused |
| VerifierProperties.RefusalIsWiderThanItsMessage | crates/http-api/src/dcp.rs:256-258 | for all credentials: the all-expired error arises if and only if all verify, one has expired and none grants an id |
| Handshake.SignedTokenAuthenticates | crates/dcp-core/src/lib.rs:446-457 | a token signed with a key the issuer's document vouches for authenticates |
| Handshake.BearerHeaderReadsBack | crates/http-api/src/lib.rs:255-263 | any signed token survives the `Bearer` header and its trimming |
| Strings.TrimOfPadded | crates/http-api/src/lib.rs:255-260 | trimming takes whitespace off both ends and stops at the first other character |
| Strings.WhitespaceIs | crates/http-api/src/lib.rs:259 | the characters trimmed |
| TokenClaims.MintedTokenClaims | crates/dcp-core/src/lib.rs:393-426 | every header member and claim of T1 and of the T2 inside it, as decoded and verified |
| TokenClaims.RepackagedClaims | crates/http-api/src/dcp.rs:153-164 | every claim of T3, which forwards T2 unchanged to the holder |
| TokenClaims.AnsweredPresentationClaims | crates/dcp-core/src/lib.rs:472-487 | every claim of the presentation, which wraps the stored credential and nothing else |
| TokenClaims.RouteExactly | crates/http-api/src/lib.rs:250-272 | 404 without a holder, 401 to a request it does not accept, else 200 with one presentation |
| TokenClaims.HolderDocumentIs | crates/dcp-core/src/lib.rs:376-380 | the holder's DID document member by member |
| Handshake.EndpointMeetsRoute | crates/http-api/src/dcp.rs:167 | the advertised endpoint plus the verifier's suffix is the registered presentation route |
| Handshake.TokenIsChecked | crates/http-api/src/dcp.rs:126-148 | an honest T1 passes if and only if it is less than 300 seconds old, and is otherwise refused as expired |
| Handshake.RepackagedIsAnswered | crates/dcp-core/src/lib.rs:446-488 | an honest T3 is answered if and only if it is less than 300 seconds old |
| Handshake.QueryIsAnswered | crates/http-api/src/dcp.rs:166-187 | what the verifier's request to the advertised endpoint comes back with |
| Handshake.SignedPresentationOpens | crates/http-api/src/dcp.rs:189-203 | whatever else it claims, a presentation signed under the holder's document opens to the credentials it holds |
| Handshake.PresentationOpens | crates/http-api/src/dcp.rs:189-203 | the holder's own presentation opens to its one credential |
| Handshake.CredentialIsJudged | crates/http-api/src/dcp.rs:207-258 | what a validly signed credential amounts to |
| Handshake.HonestRunsExist | crates/http-api/src/lib.rs:217-218 | for every host, resolvable verifier, clock and self-issued claims there is an honest run, so the theorems about them are not vacuous |
| Handshake.HonestHandshake | crates/http-api/src/dcp.rs:125-261 | the exact outcome of every honest run: too late, expired, or the credential's grant |
| Handshake.HandshakeCompleteness | crates/http-api/src/dcp.rs:125-261 | in time and unexpired, the caller is accepted and gets exactly the ids its credential lists under the expected type |
| CredentialBinding.HonestGrantExactly | crates/http-api/src/dcp.rs:220-246 | in an honest run an id is granted if and only if both tokens are timely, `exp` is a number after now, and `vc` has the expected type and lists the id, claim by claim |
| CredentialBinding.GrantDependsOnlyOn | crates/http-api/src/dcp.rs:207-246 | runs whose credentials agree on `exp` and on the ids listed end alike: the credential's issuer, subject and other claims are compared with nothing |
| CredentialBinding.MixedCredentialsAreRefused | crates/http-api/src/dcp.rs:249-258 | for every lawful library, host and clock there is a presentation of one expired and one unexpired credential that ends in the all-expired error |
| DspEndpoints.CatalogRequest | crates/http-api/src/lib.rs:669-741 | 401, 500, or the document rendered from a right answer of the cache; never 404 |
| DspEndpoints.DatasetRequest | crates/http-api/src/lib.rs:753-785 | 401, 500, 404 alike for absent and invisible, or the dataset found |
| EndpointProperties.FoundExactlyWhenListed | crates/http-api/src/lib.rs:743-785 | for one caller and cache content, the dataset endpoint answers 200 if and only if parsing the catalog endpoint's answer finds the id |
| EndpointProperties.CarriesExactly | crates/http-api/src/lib.rs:556-561 | the header carries a token if and only if it is `Bearer ` and, between any whitespace, the token |
| EndpointProperties.ServedExactly | crates/http-api/src/lib.rs:547-589 | both endpoints serve an id if and only if a node has it and authorization is disabled, or the header carries a token registered with it, or a token whose verification grants it |
| EndpointProperties.StatusExactly | crates/http-api/src/lib.rs:673-785 | 401 if and only if the caller is not let in - always without a token when authorization is enabled -, then 500 on a cache error, else 200, or 404 for a dataset |
| EndpointProperties.LookupDependsOnVisible | crates/http-api/src/lib.rs:750-752 | caches whose visible datasets agree up to properties get the same answer for every id |
| EndpointProperties.UnknownTokenSeesNothing | crates/http-api/src/lib.rs:568-571 | an unregistered bearer token is let in, its catalog parses to no dataset and every lookup is a 404 |
| CrawlCycle.CrawlOne | crates/crawler/src/lib.rs:98-156 | the parse of a successful body, or the failure of the stage it got to |
| CrawlCycle.SendsExactly | crates/crawler/src/lib.rs:110-134 | the `Authorization` value is the placeholder, or `Bearer ` and a minted token if there are a holder and a provider DID |
| CrawlCycle.CrawlsExactly | crates/crawler/src/lib.rs:136-155 | a crawl yields a catalog if and only if the answer has a status from 200 to 299 and a JSON body, and then its parse |
| CrawlCycle.FailsExactly | crates/crawler/src/lib.rs:112-153 | every other crawl fails with the error of its stage |
| CrawlCycle.BadStatusFails | crates/crawler/src/lib.rs:142-148 | any other status is that failure, whatever the body, and leaves every cache as it was |
| CrawlCycle.CrawlOnce | crates/crawler/src/lib.rs:67-93 | no failure aborts a cycle; cache and summary are exactly what the outcomes in order amount to, store failures included |
| CrawlCycle.FailuresInOrder | crates/crawler/src/lib.rs:54-58 | who failed is listed right after those that failed before, and nobody else is |
| CrawlCycle.RunScheduler | crates/crawler/src/lib.rs:299-327 | any number of cycles: every outcome is that of crawling its participant, and the cache is what all outcomes amount to |
| CrawlCycle.RunHistory | crates/crawler/src/lib.rs:305-326 | a node's entry is what the last outcome that touched it left, whatever failed since |
| CrawlCycle.UntouchedByRun | crates/crawler/src/lib.rs:305-326 | a node no outcome touched keeps its entry |
| CrawlCycle.CacheHoldsLastSuccess | crates/crawler/src/lib.rs:67-93 | without store errors a node's entry is the parse of its last successful response, also when several participants share its id |
| CrawlCycle.CacheKeepsUncrawled | crates/crawler/src/lib.rs:85-88 | unconfigured nodes, and nodes whose every crawl failed, keep the entry they had |
| Federation.CycleLogIsCrawled | crates/crawler/src/lib.rs:98-156 | the outcomes a settled broker's cache is built from are those of crawling its members |
| Federation.CacheListsCrawled | crates/crawler/src/lib.rs:67-93 | after the cycle the cache lists exactly what was crawled from the members |
| Federation.BrokerCanSettle | crates/rdf-store/src/lib.rs:444-482 | a broker whose members have settled has a listing with which it is settled too, so the conservation theorem applies to every tree |
| Federation.BrokerServes | crates/http-api/src/lib.rs:692-738 | what a broker serves is, with multiplicity, what its cache lists |
| Federation.FederationConserves | crates/crawler/src/lib.rs:205-275 | for any finite tree of unauthenticated brokers, the datasets at the root are, with multiplicity, those of all leaves, whatever depth and id order |
| ServiceResolution.ServiceStillNamed | crates/crawler/src/lib.rs:205-275 | a visible dataset arrives at the next broker, and every id that named a service of its node names one there |
| ServiceResolution.EndpointSurvivesExactly | crates/crawler/src/lib.rs:209-217 | a service keeps its endpoint at the next broker if and only if the first service of its id, in listing order, has the same URL |
| ServiceResolution.ServiceNamedAtRoot | crates/crawler/src/lib.rs:205-275 | so at the root of any tree every dataset of every leaf is served, and every id that named a service the leaf mentions names one |
| ExpiredCredentials.OnlyExpiredIsRefused | crates/http-api/src/dcp.rs:256-258 | a caller with nothing but expired credentials is refused |
| ExpiredCredentials.ExpiredCallerGets401 | crates/http-api/src/lib.rs:577-585 | the endpoint answers it with 401, whatever its cache holds |
| ExpiredCredentials.ExpiredCredentialsLeaveCacheAlone | crates/crawler/src/lib.rs:142-148 | so the crawl fails with 401 and every cache stays exactly as it was |
| AuthorizedCrawl.HonestCallerIsAuthorized | crates/http-api/src/lib.rs:572-586 | an honest caller's allow-list is the grant of its credential, or it is refused |
| AuthorizedCrawl.AuthorizedCrawlFetchesTheGrant | crates/crawler/src/lib.rs:98-156 | an honest crawl of a DCP-protected broker fails with 401 or yields exactly those of the broker's datasets the credential lists, and the first-wins services of their nodes |
| AuthorizedCrawl.AuthorizedCrawlCachesTheGrant | crates/crawler/src/lib.rs:75-90 | and so does the participant's cache entry, unless the store fails; every other entry stays |

## Left out

- Foreign code: `serde_json`, `p256`, `reqwest`, `oxigraph` and `contreforts-kg` are not part of this model. JSON text and signatures are parameters with laws; the quad store is `OxigraphCache.GraphStore`, whose operations are atomic, may fail, and may or may not keep emptied graphs listed.
- The serde text of a cached `Catalog`: a stored literal holds the catalog value itself; any other literal or term gives the code's error.
- Deserialization of structs from JSON arrays, which serde also accepts: DID documents, their entries and presentation responses are read from objects only.
- Numbers with a fraction or an exponent are kept as their text; that `serde_json` reads them as doubles is not modelled, and no modelled code looks at one.
- IRI validation of graph names: percent-encoded ids behind the fixed prefix are taken to be valid, as the code's comment says they are.
- HTTP, axum and tokio: a request is an outcome (no response, or a status with a body that may not be JSON). An `Authorization` header is its readable text if it has one. Timers and tracing are not modelled.
- Error texts: errors are the values of `DcpError` and `CrawlError`; the bodies of 401, 404 and 500 answers are left out.
- The body of the presentation query: the holder ignores it, so the scope does not matter.
- `CatalogParser.CatalogUnderConstruction.CollectLevel` and `CollectNested` split the parser's one body; the order of effects is the source's.
- The library sort: `CatalogCache.SortById` is an insertion sort with the contract of a stable `sort_by`.
- The lock of the in-memory cache: its operations are single steps.
- Store errors in whole runs: `CrawlOnce`, `RunScheduler` and `RunHistory` allow them (an entry may be lost); `CacheHoldsLastSuccess` excludes them, because a failed `upsert` may have removed the old entry.
- Federation under authentication, and members of a broker that fail during the cycle: the conservation theorem is about unauthenticated brokers whose members all answered.
- Clock overflow: readings within 300 of the `u64` limit.
- `config.rs`, `main.rs`, `GET /catalog`, `dspace-version`, health, sample seeding, the TCK and benchmark material, and the planned SPARQL endpoint: constant answers, loading and test harness.
