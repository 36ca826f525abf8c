/** The holder side of DCP: minting T1 and answering a presentation query (`HolderIdentity`). */
module Holder {
  import opened Wrappers
  import opened Json
  import opened Strings
  import opened Jws
  import opened DidDocuments
  import DidWeb

  const VERIFIABLE_PRESENTATION_CONTEXT := "https://www.w3.org/2018/credentials/v1"
  const LIFETIME := 300

  datatype HolderIdentity = HolderIdentity(
    keys: DcpKeyPair, ownDidHost: string, insecureHttp: bool, credentialJws: string, requiredScope: string)

  function NewHolder(
    libs: Libs, host: string, insecureHttp: bool, credentialJws: string, scope: string, secret: SecretKey): HolderIdentity
  {
    HolderIdentity(GenerateKeyPair(libs, DidWeb.HolderDid(host), secret), host, insecureHttp, credentialJws, scope)
  }

  function HolderEndpoint(holder: HolderIdentity): string {
    DidWeb.Scheme(holder.insecureHttp) + "://" + holder.ownDidHost + "/dsp/holder"
  }

  function HolderServices(holder: HolderIdentity): seq<DidService> {
    [DidService("CredentialService", HolderEndpoint(holder))]
  }

  /** What `GET /dsp/holder/did.json` serves. */
  function HolderDidDocumentJson(holder: HolderIdentity): Json {
    DidDocumentJson(holder.keys, HolderServices(holder))
  }

  function AccessTokenPayload(holder: HolderIdentity, now: Seconds, jti: string): Json {
    Obj(map[
      "iss" := Str(holder.keys.ownDid), "sub" := Str(holder.keys.ownDid), "aud" := Str(holder.keys.ownDid),
      "iat" := Int(now), "nbf" := Int(now), "exp" := Int(now + LIFETIME), "jti" := Str(jti)])
  }

  /** The claims of T1 and of T3: a party names itself, its addressee, and the access token T2. */
  function SelfIssuedPayload(issuer: string, audience: string, accessToken: string, now: Seconds, jti: string): Json {
    Obj(map[
      "iss" := Str(issuer), "sub" := Str(issuer), "aud" := Str(audience), "token" := Str(accessToken),
      "iat" := Int(now), "nbf" := Int(now), "exp" := Int(now + LIFETIME), "jti" := Str(jti)])
  }

  function MintSelfIssuedToken(
    libs: Libs, holder: HolderIdentity, providerDid: string, now: Seconds, accessJti: string, tokenJti: string): string
  {
    var accessToken := SignJws(libs, AccessTokenPayload(holder, now, accessJti), holder.keys.signingKey, holder.keys.ownKeyId);
    var payload := SelfIssuedPayload(holder.keys.ownDid, providerDid, accessToken, now, tokenJti);
    SignJws(libs, payload, holder.keys.signingKey, holder.keys.ownKeyId)
  }

  function PresentationPayload(holder: HolderIdentity, now: Seconds, jti: string): Json {
    var vp := Obj(map[
      "@context" := StringArray([VERIFIABLE_PRESENTATION_CONTEXT]),
      "type" := StringArray(["VerifiablePresentation"]),
      "verifiableCredential" := StringArray([holder.credentialJws])]);
    Obj(map[
      "iss" := Str(holder.keys.ownDid), "sub" := Str(holder.keys.ownDid), "vp" := vp,
      "iat" := Int(now), "exp" := Int(now + LIFETIME), "jti" := Str(jti)])
  }

  function Require<T>(o: Option<T>, e: DcpError): Result<T, DcpError> {
    match o
    case Some(v) => Ok(v)
    case None => Err(e)
  }

  /** A decoded token whose signature verifies under the key its issuer publishes. */
  datatype Authentic = Authentic(issuer: string, issuerDoc: DidDocument, payload: Json)

  /** The check both parties and the credential loop share: decode, resolve the issuer, verify. */
  function Authenticate(libs: Libs, token: string, get: string -> Fetch, insecureHttp: bool): Result<Authentic, DcpError> {
    var decoded :- DecodeJwsUnverified(libs, token);
    var issuer :- Require(GetStr(decoded.payload, "iss"), MissingClaim("iss"));
    var kid :- Require(GetStr(decoded.header, "kid"), MissingClaim("kid"));
    var doc :- ResolveDid(get, issuer, insecureHttp);
    var key :- FindVerifyingKey(libs, doc, kid);
    var verified :- VerifyJwsSignature(libs, token, key);
    Ok(Authentic(issuer, doc, decoded.payload))
  }

  /** The addressee and lifetime checks both parties make of a self-issued token. */
  function CheckAddressee(payload: Json, ownDid: string, now: Seconds): Result<(), DcpError> {
    if GetStr(payload, "aud").GetOr("") != ownDid then Err(WrongAudience)
    else if AsU64(Get(payload, "exp")).GetOr(0) <= now then Err(TokenExpired)
    else Ok(())
  }

  /** `clock(0)` is read by the expiry check, `clock(1)` when the presentation is signed. */
  function AnswerPresentationQuery(
    libs: Libs, holder: HolderIdentity, token: string, get: string -> Fetch, clock: nat -> Seconds, jti: string)
    : Result<string, DcpError>
  {
    var caller :- Authenticate(libs, token, get, holder.insecureHttp);
    var checked :- CheckAddressee(caller.payload, holder.keys.ownDid, clock(0));
    Ok(SignJws(libs, PresentationPayload(holder, clock(1), jti), holder.keys.signingKey, holder.keys.ownKeyId))
  }

  // ---------------------------------------------------------------- the HTTP route

  /** The token of an `Authorization: Bearer` header, if there is one to speak of. */
  function BearerToken(header: Option<string>): Option<string> {
    match header
    case None => None
    case Some(value) =>
      match StripPrefix(value, "Bearer ")
      case None => None
      case Some(rest) => if Trim(rest) == "" then None else Some(Trim(rest))
  }

  function PresentationRoute(host: string, insecureHttp: bool): string {
    (if insecureHttp then "http://" else "https://") + host + "/dsp/holder/presentations/query"
  }

  /** `POST /dsp/holder/presentations/query`. */
  function HolderRoute(
    libs: Libs, holder: Option<HolderIdentity>, header: Option<string>, get: string -> Fetch, clock: nat -> Seconds, jti: string)
    : Fetch
  {
    match holder
    case None => Response(404, None)
    case Some(h) =>
      match BearerToken(header)
      case None => Response(401, None)
      case Some(token) =>
        match AnswerPresentationQuery(libs, h, token, get, clock, jti)
        case Err(_) => Response(401, None)
        case Ok(vp) => Response(200, Some(Obj(map["presentation" := StringArray([vp])])))
  }
}
