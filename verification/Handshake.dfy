/**
 The whole DCP handshake between an honest holder and an honest verifier: T1 out, T3 back, a
 presentation in return, credentials judged - and exactly when it ends well.
 */
module Handshake {
  import opened Wrappers
  import opened Json
  import opened Strings
  import opened Jws
  import opened DidWeb
  import opened DidDocuments
  import opened Holder
  import opened Verifier
  import Base64Url
  import Bytes
  import VerifierChecks

  // ---------------------------------------------------------------- single steps

  /** What a party signs and its issuer's document vouches for authenticates. */
  lemma SignedTokenAuthenticates(
    libs: Libs, payload: Json, secret: SecretKey, kid: string, issuer: string, doc: DidDocument, get: string -> Fetch, insecureHttp: bool)
    requires Lawful(libs)
    requires GetStr(payload, "iss") == Some(issuer)
    requires ResolveDid(get, issuer, insecureHttp) == Ok(doc)
    requires FindVerifyingKey(libs, doc, kid) == Ok(libs.publicKey(secret))
    ensures Authenticate(libs, SignJws(libs, payload, secret, kid), get, insecureHttp) == Ok(Authentic(issuer, doc, payload))
  {
    hide SignJws, DecodeJwsUnverified, VerifyJwsSignature, ResolveDid, FindVerifyingKey;
    JwsRoundTrip(libs, payload, secret, kid);
    assert Get(JwsHeader(kid), "kid") == Some(Str(kid));
  }

  lemma SelfIssuedClaims(issuer: string, audience: string, accessToken: string, now: Seconds, jti: string)
    ensures
      var payload := SelfIssuedPayload(issuer, audience, accessToken, now, jti);
      && GetStr(payload, "iss") == Some(issuer)
      && GetStr(payload, "aud") == Some(audience)
      && GetStr(payload, "token") == Some(accessToken)
      && AsU64(Get(payload, "exp")) == Some(now + 300)
  {
    var payload := SelfIssuedPayload(issuer, audience, accessToken, now, jti);
    assert Get(payload, "iss") == Some(Str(issuer));
    assert Get(payload, "aud") == Some(Str(audience));
    assert Get(payload, "token") == Some(Str(accessToken));
    assert Get(payload, "exp") == Some(Int(now + 300));
  }

  lemma PresentationClaims(holder: HolderIdentity, now: Seconds, jti: string)
    ensures
      var body := Get(PresentationPayload(holder, now, jti), "vp");
      body.Some? && Entries(body.value, "verifiableCredential") == [Str(holder.credentialJws)]
  {
    var payload := PresentationPayload(holder, now, jti);
    assert Get(payload, "vp").Some?;
    var body := Get(payload, "vp").value;
    assert Get(body, "verifiableCredential") == Some(StringArray([holder.credentialJws]));
    assert Entries(body, "verifiableCredential") == [Str(holder.credentialJws)];
  }

  /** A party whose published document is served at the URL of its DID resolves to its own key. */
  lemma PublishedIdentityResolves(
    libs: Libs, did: string, secret: SecretKey, services: seq<DidService>, get: string -> Fetch, insecureHttp: bool)
    requires Lawful(libs)
    requires DidWebToUrl(did, insecureHttp).Ok?
    requires get(DidWebToUrl(did, insecureHttp).value)
          == Response(200, Some(DidDocumentJson(GenerateKeyPair(libs, did, secret), services)))
    ensures
      var keys := GenerateKeyPair(libs, did, secret);
      && ResolveDid(get, did, insecureHttp) == Ok(OwnDidDocument(keys, services))
      && FindVerifyingKey(libs, OwnDidDocument(keys, services), keys.ownKeyId) == Ok(libs.publicKey(secret))
  {
    hide DidDocumentJson, ReadDidDocument, FindVerifyingKey, DidWebToUrl;
    OwnDocumentReadsBack(GenerateKeyPair(libs, did, secret), services);
    OwnKeyIsFound(libs, did, secret, services);
  }

  // ---------------------------------------------------------------- the bearer header

  lemma NoWhitespaceInToken(libs: Libs, payload: Json, key: SecretKey, kid: string)
    ensures forall i :: 0 <= i < |SignJws(libs, payload, key, kid)| ==> !IsWhitespace(SignJws(libs, payload, key, kid)[i])
    ensures SignJws(libs, payload, key, kid) != ""
  {
    var token := SignJws(libs, payload, key, kid);
    var h, p := libs.toText(JwsHeader(kid)), libs.toText(payload);
    var signature := libs.sign(key, Bytes.Utf8(SigningInput(libs, payload, kid)));
    Base64Url.EncodeUsesAlphabet(h);
    Base64Url.EncodeUsesAlphabet(p);
    Base64Url.EncodeUsesAlphabet(signature);
    hide Base64Url.Encode;
    var a, b, c := Base64Url.Encode(h), Base64Url.Encode(p), Base64Url.Encode(signature);
    assert token == a + "." + b + "." + c;
    forall i | 0 <= i < |token| ensures !IsWhitespace(token[i]) {
      assert token[i] == '.' || Base64Url.InAlphabet(token[i]) by {
        if i < |a| { assert token[i] == a[i]; }
        else if i == |a| {}
        else if i < |a| + 1 + |b| { assert token[i] == b[i - |a| - 1]; }
        else if i == |a| + 1 + |b| {}
        else { assert token[i] == c[i - |a| - |b| - 2]; }
      }
    }
  }

  lemma BearerHeaderReadsBack(libs: Libs, payload: Json, key: SecretKey, kid: string)
    ensures BearerToken(Some("Bearer " + SignJws(libs, payload, key, kid))) == Some(SignJws(libs, payload, key, kid))
  {
    hide SignJws;
    NoWhitespaceInToken(libs, payload, key, kid);
    var token := SignJws(libs, payload, key, kid);
    StripOwnPrefix("Bearer ", token);
    assert Trim(token) == token;
  }

  lemma PresentationReplyReadsBack(vp: string)
    ensures ReadPresentations(Obj(map["presentation" := StringArray([vp])])) == Some([vp])
  {
    var v := Obj(map["presentation" := StringArray([vp])]);
    assert Get(v, "presentation") == Some(StringArray([vp]));
    assert StringArray([vp]) == Arr([Str(vp)]);
    assert [Str(vp)][1..] == [];
    assert ReadAll(ReadStr, [Str(vp)][1..]) == Some([]);
    assert [vp] + [] == [vp];
  }

  /** The suffix the verifier appends to the advertised endpoint gives the registered route. */
  lemma EndpointMeetsRoute(holder: HolderIdentity)
    ensures HolderEndpoint(holder) + "/presentations/query" == PresentationRoute(holder.ownDidHost, holder.insecureHttp)
  {
    SchemeIs(holder.insecureHttp);
    var base := (if holder.insecureHttp then "http://" else "https://") + holder.ownDidHost;
    assert "/dsp/holder" + "/presentations/query" == "/dsp/holder/presentations/query";
    assert base + "/dsp/holder" + "/presentations/query" == base + ("/dsp/holder" + "/presentations/query");
  }

  // ---------------------------------------------------------------- the run

  /** Two honest parties, the network as each of them sees it, and the times at which they act. */
  datatype Setting = Setting(
    libs: Libs,
    host: string,
    holderInsecure: bool,
    verifierInsecure: bool,
    credentialJws: string,
    scope: string,
    holderSecret: SecretKey,
    verifierDid: string,
    verifierSecret: SecretKey,
    net: Network,
    holderGet: string -> Fetch,
    mintedAt: Seconds,
    verifierClock: nat -> Seconds,
    holderClock: nat -> Seconds,
    accessJti: string,
    tokenJti: string,
    repackageJti: string,
    presentationJti: string)

  function TheHolder(x: Setting): HolderIdentity {
    NewHolder(x.libs, x.host, x.holderInsecure, x.credentialJws, x.scope, x.holderSecret)
  }

  function TheConfig(x: Setting): DcpConfig {
    DcpConfig(GenerateKeyPair(x.libs, x.verifierDid, x.verifierSecret), x.verifierInsecure, x.scope)
  }

  function TheToken(x: Setting): string {
    MintSelfIssuedToken(x.libs, TheHolder(x), x.verifierDid, x.mintedAt, x.accessJti, x.tokenJti)
  }

  /** The holder's document is served where its DID resolves to. */
  ghost predicate HolderPublished(x: Setting) {
    && Lawful(x.libs)
    && DidWebToUrl(HolderDid(x.host), x.verifierInsecure).Ok?
    && x.net.get(DidWebToUrl(HolderDid(x.host), x.verifierInsecure).value)
       == Response(200, Some(HolderDidDocumentJson(TheHolder(x))))
  }

  /** So is the verifier's, and the holder answers at the route it advertises. */
  ghost predicate Honest(x: Setting) {
    && HolderPublished(x)
    && DidWebToUrl(x.verifierDid, x.holderInsecure).Ok?
    && x.holderGet(DidWebToUrl(x.verifierDid, x.holderInsecure).value)
       == Response(200, Some(DidDocumentJson(TheConfig(x).keys, [])))
    && (forall header :: x.net.post(PresentationRoute(x.host, x.holderInsecure), header)
          == HolderRoute(x.libs, Some(TheHolder(x)), Some(header), x.holderGet, x.holderClock, x.presentationJti))
  }

  /** The credential was signed with a key its issuer's document vouches for. */
  ghost predicate Issued(x: Setting, payload: Json, secret: SecretKey, kid: string, issuer: string, doc: DidDocument) {
    && x.credentialJws == SignJws(x.libs, payload, secret, kid)
    && GetStr(payload, "iss") == Some(issuer)
    && ResolveDid(x.net.get, issuer, x.verifierInsecure) == Ok(doc)
    && FindVerifyingKey(x.libs, doc, kid) == Ok(x.libs.publicKey(secret))
  }

  /**
   Honest runs exist for every lawful library, host and resolvable verifier, at any clock readings:
   here the holder presents a credential it issued itself, with whatever claims.
   */
  lemma HonestRunsExist(template: Setting, payload: Json) returns (x: Setting)
    requires Lawful(template.libs)
    requires DidWebToUrl(template.verifierDid, template.holderInsecure).Ok?
    requires GetStr(payload, "iss") == Some(HolderDid(template.host))
    ensures x.libs == template.libs && x.host == template.host && x.verifierDid == template.verifierDid
    ensures x.mintedAt == template.mintedAt && x.verifierClock == template.verifierClock && x.holderClock == template.holderClock
    ensures Honest(x) && Issued(x, payload, x.holderSecret, TheHolder(x).keys.ownKeyId, HolderDid(x.host), HolderDocument(x))
  {
    hide SignJws, DidDocumentJson, HolderRoute, PresentationRoute, DidWebToUrl, ResolveDid,
      FindVerifyingKey;
    x := template.(credentialJws := SignJws(template.libs, payload, template.holderSecret, TheHolder(template).keys.ownKeyId));
    var holder, document := TheHolder(x), HolderDidDocumentJson(TheHolder(x));
    var verifierDocument := DidDocumentJson(TheConfig(x).keys, []);
    var libs, holderClock, jti := x.libs, x.holderClock, x.presentationJti;
    var holderGet: string -> Fetch := url => Response(200, Some(verifierDocument));
    var get: string -> Fetch := url => Response(200, Some(document));
    var post: (string, string) -> Fetch := (url, header) => HolderRoute(libs, Some(holder), Some(header), holderGet, holderClock, jti);
    x := x.(holderGet := holderGet, net := Network(get, post));
    assert TheHolder(x) == holder;
    HolderDidResolvesTo(x.host, x.verifierInsecure);
    assert Honest(x);
    HolderResolves(x);
  }

  function AccessToken(x: Setting): string {
    SignJws(
      x.libs, AccessTokenPayload(TheHolder(x), x.mintedAt, x.accessJti), x.holderSecret, TheHolder(x).keys.ownKeyId)
  }

  function TokenPayload(x: Setting): Json {
    SelfIssuedPayload(HolderDid(x.host), x.verifierDid, AccessToken(x), x.mintedAt, x.tokenJti)
  }

  function HolderDocument(x: Setting): DidDocument {
    OwnDidDocument(TheHolder(x).keys, HolderServices(TheHolder(x)))
  }

  function TheChecked(x: Setting): Checked {
    Checked(Authentic(HolderDid(x.host), HolderDocument(x), TokenPayload(x)), AccessToken(x))
  }

  function TheRepackaged(x: Setting): string {
    Repackage(x.libs, TheConfig(x), TheChecked(x), x.verifierClock(1), x.repackageJti)
  }

  function ThePresentation(x: Setting): string {
    SignJws(
      x.libs, PresentationPayload(TheHolder(x), x.holderClock(1), x.presentationJti), x.holderSecret, TheHolder(x).keys.ownKeyId)
  }

  lemma HolderResolves(x: Setting)
    requires HolderPublished(x)
    ensures ResolveDid(x.net.get, HolderDid(x.host), x.verifierInsecure) == Ok(HolderDocument(x))
    ensures FindVerifyingKey(x.libs, HolderDocument(x), TheHolder(x).keys.ownKeyId) == Ok(x.libs.publicKey(x.holderSecret))
  {
    hide HolderDid, DidWebToUrl, ResolveDid, FindVerifyingKey, DidDocumentJson,
      HolderServices, HolderRoute, OwnDidDocument;
    PublishedIdentityResolves(
      x.libs, HolderDid(x.host), x.holderSecret, HolderServices(TheHolder(x)), x.net.get, x.verifierInsecure);
  }

  lemma VerifierResolves(x: Setting)
    requires Honest(x)
    ensures ResolveDid(x.holderGet, x.verifierDid, x.holderInsecure) == Ok(OwnDidDocument(TheConfig(x).keys, []))
    ensures FindVerifyingKey(x.libs, OwnDidDocument(TheConfig(x).keys, []), TheConfig(x).keys.ownKeyId)
         == Ok(x.libs.publicKey(x.verifierSecret))
  {
    hide DidWebToUrl, ResolveDid, FindVerifyingKey, DidDocumentJson, HolderRoute, OwnDidDocument;
    PublishedIdentityResolves(x.libs, x.verifierDid, x.verifierSecret, [], x.holderGet, x.holderInsecure);
  }

  /** T1 passes the verifier's checks exactly while it is less than 300 seconds old. */
  lemma TokenIsChecked(x: Setting)
    requires HolderPublished(x)
    ensures CheckToken(x.libs, TheToken(x), TheConfig(x), x.net, x.verifierClock(0))
         == if x.mintedAt + 300 <= x.verifierClock(0) then Err(TokenExpired) else Ok(TheChecked(x))
  {
    hide HolderPublished, Authenticate, SignJws, SelfIssuedPayload, HolderDid, HolderDocument, ResolveDid, FindVerifyingKey;
    HolderResolves(x);
    assert TheToken(x) == SignJws(x.libs, TokenPayload(x), x.holderSecret, TheHolder(x).keys.ownKeyId);
    SelfIssuedClaims(HolderDid(x.host), x.verifierDid, AccessToken(x), x.mintedAt, x.tokenJti);
    PublishedIsLawful(x);
    SignedTokenAuthenticates(
      x.libs, TokenPayload(x), x.holderSecret, TheHolder(x).keys.ownKeyId, HolderDid(x.host), HolderDocument(x), x.net.get,
      x.verifierInsecure);
  }

  lemma PublishedIsLawful(x: Setting)
    requires HolderPublished(x)
    ensures Lawful(x.libs)
  {
  }

  lemma HonestIsPublished(x: Setting)
    requires Honest(x)
    ensures HolderPublished(x) && Lawful(x.libs)
  {
  }

  /** The holder answers T3 exactly while it is less than 300 seconds old. */
  lemma RepackagedIsAnswered(x: Setting)
    requires Honest(x)
    ensures
      AnswerPresentationQuery(x.libs, TheHolder(x), TheRepackaged(x), x.holderGet, x.holderClock, x.presentationJti)
      == if x.verifierClock(1) + 300 <= x.holderClock(0) then Err(TokenExpired) else Ok(ThePresentation(x))
  {
    hide Honest, Authenticate, SignJws, SelfIssuedPayload, HolderDid, ResolveDid, FindVerifyingKey,
      PresentationPayload, AccessToken, OwnDidDocument;
    VerifierResolves(x);
    HonestIsPublished(x);
    var config := TheConfig(x);
    var payload := SelfIssuedPayload(x.verifierDid, HolderDid(x.host), AccessToken(x), x.verifierClock(1), x.repackageJti);
    assert TheRepackaged(x) == SignJws(x.libs, payload, x.verifierSecret, config.keys.ownKeyId);
    SelfIssuedClaims(x.verifierDid, HolderDid(x.host), AccessToken(x), x.verifierClock(1), x.repackageJti);
    SignedTokenAuthenticates(
      x.libs, payload, x.verifierSecret, config.keys.ownKeyId, x.verifierDid, OwnDidDocument(config.keys, []), x.holderGet,
      x.holderInsecure);
  }

  /** What the verifier's request to the advertised endpoint comes back with. */
  lemma QueryIsAnswered(x: Setting)
    requires Honest(x)
    ensures QueryPresentation(TheConfig(x), TheChecked(x), TheRepackaged(x), x.net)
         == if x.verifierClock(1) + 300 <= x.holderClock(0) then Err(PresentationQueryFailed) else Ok(ThePresentation(x))
  {
    hide SignJws, AnswerPresentationQuery, ThePresentation, PresentationRoute, HolderEndpoint, BearerToken,
      ReadPresentations, ResolveDid, DidWebToUrl, Lawful, TokenPayload, AccessToken;
    var holder := TheHolder(x);
    RepackagedIsAnswered(x);
    EndpointMeetsRoute(holder);
    RepackagedHeader(x);
    PresentationReplyReadsBack(ThePresentation(x));
    assert FindEndpoint(HolderDocument(x).service, "CredentialService") == Ok(HolderEndpoint(holder));
  }

  lemma RepackagedHeader(x: Setting)
    ensures BearerToken(Some("Bearer " + TheRepackaged(x))) == Some(TheRepackaged(x))
  {
    hide SignJws, BearerToken;
    var payload := SelfIssuedPayload(x.verifierDid, HolderDid(x.host), AccessToken(x), x.verifierClock(1), x.repackageJti);
    BearerHeaderReadsBack(x.libs, payload, x.verifierSecret, TheConfig(x).keys.ownKeyId);
  }

  /** Whatever else it claims, a presentation signed under the document opens to the credentials it holds. */
  lemma SignedPresentationOpens(libs: Libs, payload: Json, secret: SecretKey, kid: string, doc: DidDocument)
    requires Lawful(libs) && FindVerifyingKey(libs, doc, kid) == Ok(libs.publicKey(secret))
    requires Get(payload, "vp").Some?
    ensures
      var credentials := Entries(Get(payload, "vp").value, "verifiableCredential");
      OpenPresentation(libs, SignJws(libs, payload, secret, kid), doc)
      == if credentials == [] then Err(NoCredentials) else Ok(credentials)
  {
    hide SignJws, DecodeJwsUnverified, VerifyJwsSignature, FindVerifyingKey;
    JwsRoundTrip(libs, payload, secret, kid);
    assert Get(JwsHeader(kid), "kid") == Some(Str(kid));
  }

  lemma PresentationOpens(x: Setting)
    requires Honest(x)
    ensures OpenPresentation(x.libs, ThePresentation(x), HolderDocument(x)) == Ok([Str(x.credentialJws)])
  {
    hide Honest, SignJws, OpenPresentation, HolderDocument, FindVerifyingKey, PresentationPayload, ResolveDid;
    HonestIsPublished(x);
    HolderResolves(x);
    var payload, kid := PresentationPayload(TheHolder(x), x.holderClock(1), x.presentationJti), TheHolder(x).keys.ownKeyId;
    PresentationClaims(TheHolder(x), x.holderClock(1), x.presentationJti);
    SignedPresentationOpens(x.libs, payload, x.holderSecret, kid, HolderDocument(x));
  }

  lemma CredentialIsJudged(x: Setting, payload: Json, secret: SecretKey, kid: string, issuer: string, doc: DidDocument)
    requires Lawful(x.libs) && Issued(x, payload, secret, kid, issuer, doc)
    ensures Conclude(Judgements(x.libs, [Str(x.credentialJws)], x.net.get, x.verifierInsecure, x.verifierClock))
         == match VerdictOn(payload, x.verifierClock(2))
            case Expired => Err(AllCredentialsExpired)
            case Grants(ids) => Ok(ids)
  {
    hide Authenticate, SignJws, ResolveDid, FindVerifyingKey, VerdictOn;
    SignedTokenAuthenticates(x.libs, payload, secret, kid, issuer, doc, x.net.get, x.verifierInsecure);
    var verdict := VerdictOn(payload, x.verifierClock(2));
    var judged := Judgements(x.libs, [Str(x.credentialJws)], x.net.get, x.verifierInsecure, x.verifierClock);
    assert judged == [Ok(verdict)];
    assert judged[1..] == [];
    assert FirstError(judged) == None;
    assert verdict.Grants? ==> Granted(judged) == verdict.ids;
    assert verdict.Expired? ==> Granted(judged) == {} && judged[0] == Ok(Expired);
  }

  /**
   The outcome of every honest run: refused when T1 or T3 is checked 300 or more seconds after it was
   minted, refused when the credential has expired, and otherwise the grant of the credential.
   */
  lemma HonestHandshake(x: Setting, payload: Json, secret: SecretKey, kid: string, issuer: string, doc: DidDocument)
    requires Honest(x) && Issued(x, payload, secret, kid, issuer, doc)
    ensures
      Verification(x.libs, TheToken(x), TheConfig(x), x.net, x.verifierClock, x.repackageJti)
      == if x.mintedAt + 300 <= x.verifierClock(0) then Err(TokenExpired)
         else if x.verifierClock(1) + 300 <= x.holderClock(0) then Err(PresentationQueryFailed)
         else
           match VerdictOn(payload, x.verifierClock(2))
           case Expired => Err(AllCredentialsExpired)
           case Grants(ids) => Ok(VerifiedCaller(HolderDid(x.host), ids))
  {
    hide Honest, Issued, CheckToken, QueryPresentation, OpenPresentation, Conclude, Judgements, VerdictOn, TheToken,
      ThePresentation, HolderDocument, HolderDid, TokenPayload, AccessToken, Repackage;
    HonestIsPublished(x);
    TokenIsChecked(x);
    QueryIsAnswered(x);
    PresentationOpens(x);
    CredentialIsJudged(x, payload, secret, kid, issuer, doc);
  }

  /** In time and unexpired: the caller is accepted and gets exactly the ids the credential lists. */
  lemma HandshakeCompleteness(x: Setting, payload: Json, secret: SecretKey, kid: string, issuer: string, doc: DidDocument)
    requires Honest(x) && Issued(x, payload, secret, kid, issuer, doc)
    requires x.verifierClock(0) < x.mintedAt + 300 && x.holderClock(0) < x.verifierClock(1) + 300
    requires VerifierChecks.Unexpired(payload, x.verifierClock(2))
    ensures
      var r := Verification(x.libs, TheToken(x), TheConfig(x), x.net, x.verifierClock, x.repackageJti);
      && r.Ok? && r.value.holderDid == HolderDid(x.host)
      && forall id :: id in r.value.catalogAccess <==> VerifierChecks.ListsAccess(payload, id)
  {
    hide Honest, Issued, Verification, TheToken, HolderDid, VerdictOn, VerifierChecks.Unexpired, VerifierChecks.ListsAccess;
    HonestHandshake(x, payload, secret, kid, issuer, doc);
    VerifierChecks.VerdictMeans(payload, x.verifierClock(2), "");
    var ids := VerdictOn(payload, x.verifierClock(2)).ids;
    forall id ensures id in ids <==> VerifierChecks.ListsAccess(payload, id) {
      VerifierChecks.VerdictMeans(payload, x.verifierClock(2), id);
    }
  }
}
