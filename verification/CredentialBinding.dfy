/**
 What a grant depends on, and what it does not: the exact claims of an honest run's credential, and runs
 whose credentials mix expired with unexpired ones.
 */
module CredentialBinding {
  import opened Wrappers
  import opened Json
  import opened Jws
  import opened DidWeb
  import opened DidDocuments
  import opened Holder
  import opened Verifier
  import opened VerifierProperties
  import opened Handshake
  import VerifierChecks

  /** T1 and T3 are each checked less than 300 seconds after they were minted. */
  predicate Timely(x: Setting) {
    x.verifierClock(0) < x.mintedAt + 300 && x.holderClock(0) < x.verifierClock(1) + 300
  }

  /**
   In an honest run an id is granted exactly if the tokens are timely, `exp` is a number after now, `vc` is of
   the expected type and its subject's `catalogAccess` lists the id. No other claim plays a part.
   */
  lemma HonestGrantExactly(
    x: Setting, payload: Json, secret: SecretKey, kid: string, issuer: string, doc: DidDocument, id: string)
    requires Honest(x) && Issued(x, payload, secret, kid, issuer, doc)
    ensures
      var r := Verification(x.libs, TheToken(x), TheConfig(x), x.net, x.verifierClock, x.repackageJti);
      r.Ok? && id in r.value.catalogAccess <==>
        && Timely(x)
        && VerifierChecks.Unexpired(payload, x.verifierClock(2))
        && exists vc, types, subject, ids ::
             && Get(payload, "vc") == Some(vc)
             && Get(vc, "type") == Some(Arr(types)) && Str("FederatedCatalogAccessCredential") in types
             && Get(vc, "credentialSubject") == Some(subject)
             && Get(subject, "catalogAccess") == Some(Arr(ids)) && Str(id) in ids
  {
    hide Honest, Issued, Verification, TheToken, VerdictOn, VerifierChecks.Unexpired, HolderDid;
    HonestHandshake(x, payload, secret, kid, issuer, doc);
    VerifierChecks.VerdictMeans(payload, x.verifierClock(2), id);
    assert VerifierChecks.ListsAccess(payload, id) <==>
           exists vc, types, subject, ids ::
             && Get(payload, "vc") == Some(vc)
             && Get(vc, "type") == Some(Arr(types)) && Str("FederatedCatalogAccessCredential") in types
             && Get(vc, "credentialSubject") == Some(subject)
             && Get(subject, "catalogAccess") == Some(Arr(ids)) && Str(id) in ids;
  }

  lemma SameVerdict(p: Json, q: Json, now: Seconds)
    requires Get(p, "exp") == Get(q, "exp")
    requires forall id :: VerifierChecks.ListsAccess(p, id) <==> VerifierChecks.ListsAccess(q, id)
    ensures VerdictOn(p, now) == VerdictOn(q, now)
  {
    hide VerdictOn, VerifierChecks.ListsAccess;
    VerifierChecks.VerdictMeans(p, now, "");
    VerifierChecks.VerdictMeans(q, now, "");
    var vp, vq := VerdictOn(p, now), VerdictOn(q, now);
    if vp.Grants? {
      forall id ensures id in vp.ids <==> id in vq.ids {
        VerifierChecks.VerdictMeans(p, now, id);
        VerifierChecks.VerdictMeans(q, now, id);
      }
      assert vp.ids == vq.ids;
    }
  }

  /**
   Two honest runs at the same times of the same holder, whose credentials agree on `exp` and on the ids that
   `vc` lists under the expected type, end alike - whoever issued them, whoever they name as subject, whatever else they claim.
   */
  lemma GrantDependsOnlyOn(
    x: Setting, payload: Json, secret: SecretKey, kid: string, issuer: string, doc: DidDocument,
    y: Setting, payload': Json, secret': SecretKey, kid': string, issuer': string, doc': DidDocument)
    requires Honest(x) && Issued(x, payload, secret, kid, issuer, doc)
    requires Honest(y) && Issued(y, payload', secret', kid', issuer', doc')
    requires x.host == y.host && x.mintedAt == y.mintedAt && x.verifierClock == y.verifierClock && x.holderClock == y.holderClock
    requires Get(payload, "exp") == Get(payload', "exp")
    requires forall id :: VerifierChecks.ListsAccess(payload, id) <==> VerifierChecks.ListsAccess(payload', id)
    ensures Verification(x.libs, TheToken(x), TheConfig(x), x.net, x.verifierClock, x.repackageJti)
         == Verification(y.libs, TheToken(y), TheConfig(y), y.net, y.verifierClock, y.repackageJti)
  {
    hide Honest, Issued, Verification, TheToken, VerdictOn, VerifierChecks.ListsAccess, HolderDid;
    HonestHandshake(x, payload, secret, kid, issuer, doc);
    HonestHandshake(y, payload', secret', kid', issuer', doc');
    SameVerdict(payload, payload', x.verifierClock(2));
  }

  // ---------------------------------------------------------------- expired next to unexpired

  /** A credential without type: unexpired at `expiry - 1`, expired at `expiry`. */
  function UntypedCredential(issuer: string, expiry: JsonInt): Json {
    Obj(map["iss" := Str(issuer), "exp" := Int(expiry)])
  }

  function BarePresentation(credentials: seq<Json>): Json {
    Obj(map["vp" := Obj(map["verifiableCredential" := Arr(credentials)])])
  }

  /** A network that serves the holder's document everywhere and answers every query with one presentation. */
  function Presenting(x: Setting, credentials: seq<Json>): Network {
    var holder := TheHolder(x);
    var document := HolderDidDocumentJson(holder);
    var vp := SignJws(x.libs, BarePresentation(credentials), x.holderSecret, holder.keys.ownKeyId);
    Network(url => Response(200, Some(document)), (url, header) => Response(200, Some(Obj(map["presentation" := StringArray([vp])]))))
  }

  lemma PresentingPublishes(x: Setting, credentials: seq<Json>)
    requires Lawful(x.libs)
    ensures HolderPublished(x.(net := Presenting(x, credentials)))
  {
    hide HolderDid, HolderDidDocumentJson, SignJws;
    HolderDidResolvesTo(x.host, x.verifierInsecure);
  }

  lemma PresentingYields(x: Setting, credentials: seq<Json>, checked: Checked, repackaged: string)
    requires checked.holder.issuerDoc == HolderDocument(x)
    ensures QueryPresentation(TheConfig(x), checked, repackaged, Presenting(x, credentials))
         == Ok(SignJws(x.libs, BarePresentation(credentials), x.holderSecret, TheHolder(x).keys.ownKeyId))
  {
    hide SignJws, ReadPresentations, HolderEndpoint, HolderDidDocumentJson;
    PresentationReplyReadsBack(SignJws(x.libs, BarePresentation(credentials), x.holderSecret, TheHolder(x).keys.ownKeyId));
    assert FindEndpoint(HolderDocument(x).service, "CredentialService") == Ok(HolderEndpoint(TheHolder(x)));
  }

  lemma BarePresentationHolds(credentials: seq<Json>)
    ensures
      var body := Get(BarePresentation(credentials), "vp");
      body.Some? && Entries(body.value, "verifiableCredential") == credentials
  {
    var body := Obj(map["verifiableCredential" := Arr(credentials)]);
    assert Get(BarePresentation(credentials), "vp") == Some(body);
    assert Get(body, "verifiableCredential") == Some(Arr(credentials));
  }

  /** Verification over such a network comes down to the conclusion about its credentials. */
  lemma PresentingConcludes(x: Setting, credentials: seq<Json>)
    requires Lawful(x.libs) && x.verifierClock(0) < x.mintedAt + 300 && credentials != []
    ensures
      var net := Presenting(x, credentials);
      var access := Conclude(Judgements(x.libs, credentials, net.get, x.verifierInsecure, x.verifierClock));
      Verification(x.libs, TheToken(x), TheConfig(x), net, x.verifierClock, x.repackageJti)
      == if access.Ok? then Ok(VerifiedCaller(HolderDid(x.host), access.value)) else Err(access.error)
  {
    hide CheckToken, QueryPresentation, OpenPresentation, Conclude, Judgements, SignJws, Repackage, Presenting, HolderDid, HolderDocument,
      HolderPublished, BarePresentation, TokenPayload, AccessToken, TheToken, GenerateKeyPair, ResolveDid, FindVerifyingKey;
    var y := x.(net := Presenting(x, credentials));
    PresentingPublishes(x, credentials);
    SameParties(x, y.net);
    TokenIsChecked(y);
    HolderResolves(y);
    PresentingYields(x, credentials, TheChecked(y), Repackage(x.libs, TheConfig(x), TheChecked(y), x.verifierClock(1), x.repackageJti));
    BarePresentationHolds(credentials);
    SignedPresentationOpens(x.libs, BarePresentation(credentials), x.holderSecret, TheHolder(x).keys.ownKeyId, HolderDocument(x));
  }

  lemma SameParties(x: Setting, net: Network)
    ensures
      var y := x.(net := net);
      && TheToken(y) == TheToken(x) && TheConfig(y) == TheConfig(x) && TheHolder(y) == TheHolder(x)
      && HolderDocument(y) == HolderDocument(x) && TheChecked(y).holder.issuerDoc == HolderDocument(x)
  {
    hide SignJws, HolderDid;
  }

  /** A credential the holder issued itself verifies and is judged by its claims. */
  lemma OwnCredentialIsJudged(x: Setting, expiry: JsonInt, now: Seconds)
    requires HolderPublished(x) && expiry >= 0
    ensures
      var vc := Str(SignJws(x.libs, UntypedCredential(HolderDid(x.host), expiry), x.holderSecret, TheHolder(x).keys.ownKeyId));
      Judge(x.libs, vc, x.net.get, x.verifierInsecure, now) == Ok(if expiry <= now then Expired else Grants({}))
  {
    hide Authenticate, SignJws, HolderDid, HolderPublished, HolderDocument, ResolveDid, FindVerifyingKey;
    PublishedIsLawful(x);
    HolderResolves(x);
    var payload := UntypedCredential(HolderDid(x.host), expiry);
    assert Get(payload, "iss") == Some(Str(HolderDid(x.host)));
    assert Get(payload, "exp") == Some(Int(expiry));
    assert Get(payload, "vc") == None;
    SignedTokenAuthenticates(
      x.libs, payload, x.holderSecret, TheHolder(x).keys.ownKeyId, HolderDid(x.host), HolderDocument(x), x.net.get, x.verifierInsecure);
  }

  /**
   A verification that ends in "all presented credentials are expired" although one of the two is not: for
   every lawful library, host and clock, given a timely token.
   */
  lemma MixedCredentialsAreRefused(x: Setting) returns (net: Network, expired: Json, other: Json)
    requires Lawful(x.libs) && x.verifierClock(0) < x.mintedAt + 300
    ensures net == Presenting(x, [expired, other])
    ensures Judge(x.libs, expired, net.get, x.verifierInsecure, x.verifierClock(2)) == Ok(Expired)
    ensures Judge(x.libs, other, net.get, x.verifierInsecure, x.verifierClock(3)) == Ok(Grants({}))
    ensures Verification(x.libs, TheToken(x), TheConfig(x), net, x.verifierClock, x.repackageJti) == Err(AllCredentialsExpired)
  {
    hide Verification, Judge, SignJws, HolderDid, Presenting, HolderPublished, UntypedCredential, TheToken, GenerateKeyPair;
    var kid := TheHolder(x).keys.ownKeyId;
    var later := x.verifierClock(3) + 1;
    expired := Str(SignJws(x.libs, UntypedCredential(HolderDid(x.host), 0), x.holderSecret, kid));
    other := Str(SignJws(x.libs, UntypedCredential(HolderDid(x.host), later), x.holderSecret, kid));
    var credentials := [expired, other];
    net := Presenting(x, credentials);
    var y := x.(net := net);
    PresentingPublishes(x, credentials);
    SameParties(x, net);
    OwnCredentialIsJudged(y, 0, x.verifierClock(2));
    OwnCredentialIsJudged(y, later, x.verifierClock(3));
    PresentingConcludes(x, credentials);
    ExpiredAndNothing(Judgements(x.libs, credentials, net.get, x.verifierInsecure, x.verifierClock));
  }

  lemma ExpiredAndNothing(judged: seq<Result<Verdict, DcpError>>)
    ensures judged == [Ok(Expired), Ok(Grants({}))] ==> Conclude(judged) == Err(AllCredentialsExpired)
  {
    if judged == [Ok(Expired), Ok(Grants({}))] {
      NoErrorExactlyWhenAllOk(judged);
      assert judged[0] == Ok(Expired);
      assert Granted(judged) == {};
    }
  }
}
