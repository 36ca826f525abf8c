/** The verifier side of DCP (`crates/http-api/src/dcp.rs`): from a bearer token to a set of dataset ids. */
module Verifier {
  import opened Wrappers
  import opened Json
  import opened Jws
  import opened DidDocuments
  import opened Holder

  const EXPECTED_CREDENTIAL_TYPE := "FederatedCatalogAccessCredential"

  datatype DcpConfig = DcpConfig(keys: DcpKeyPair, insecureHttp: bool, requiredScope: string)

  datatype VerifiedCaller = VerifiedCaller(holderDid: string, catalogAccess: set<string>)

  /** What the verifier sees of the network: documents by URL, answers by URL and `Authorization` value. */
  datatype Network = Network(get: string -> Fetch, post: (string, string) -> Fetch)

  // ---------------------------------------------------------------- the straight-line checks

  datatype Checked = Checked(holder: Authentic, accessToken: string)

  function CheckToken(libs: Libs, token: string, config: DcpConfig, net: Network, now: Seconds): Result<Checked, DcpError> {
    var holder :- Authenticate(libs, token, net.get, config.insecureHttp);
    var addressed :- CheckAddressee(holder.payload, config.keys.ownDid, now);
    var accessToken :- Require(GetStr(holder.payload, "token"), MissingClaim("token"));
    Ok(Checked(holder, accessToken))
  }

  /** T3: the holder's access token in a token of this connector's own, addressed to the holder. */
  function Repackage(libs: Libs, config: DcpConfig, checked: Checked, now: Seconds, jti: string): string {
    var payload := SelfIssuedPayload(config.keys.ownDid, checked.holder.issuer, checked.accessToken, now, jti);
    SignJws(libs, payload, config.keys.signingKey, config.keys.ownKeyId)
  }

  function ReadStr(v: Json): Option<string> {
    AsStr(Some(v))
  }

  function ReadPresentations(v: Json): Option<seq<string>> {
    match Get(v, "presentation")
    case Some(Arr(items)) => ReadAll(ReadStr, items)
    case _ => None
  }

  function QueryPresentation(config: DcpConfig, checked: Checked, repackaged: string, net: Network): Result<string, DcpError> {
    var service :- FindEndpoint(checked.holder.issuerDoc.service, "CredentialService");
    match net.post(service + "/presentations/query", "Bearer " + repackaged)
    case TransportError => Err(PresentationQueryFailed)
    case Response(status, body) =>
      if !IsSuccess(status) then Err(PresentationQueryFailed)
      else
        match body
        case None => Err(MalformedPresentationResponse)
        case Some(v) =>
          match ReadPresentations(v)
          case None => Err(MalformedPresentationResponse)
          case Some(vps) => if vps == [] then Err(NoPresentation) else Ok(vps[0])
  }

  /** The presentation must be signed under a key of the holder's document; its credentials are returned. */
  function OpenPresentation(libs: Libs, vp: string, holderDoc: DidDocument): Result<seq<Json>, DcpError> {
    var decoded :- DecodeJwsUnverified(libs, vp);
    var kid :- Require(GetStr(decoded.header, "kid"), MissingClaim("kid"));
    var key :- FindVerifyingKey(libs, holderDoc, kid);
    var verified :- VerifyJwsSignature(libs, vp, key);
    var body := Get(decoded.payload, "vp");
    var credentials := if body.Some? then Entries(body.value, "verifiableCredential") else [];
    if credentials == [] then Err(NoCredentials) else Ok(credentials)
  }

  // ---------------------------------------------------------------- one credential

  datatype Verdict = Expired | Grants(ids: set<string>)

  /** The ids of a credential's `credentialSubject.catalogAccess`; entries that are no strings are skipped. */
  function AccessIds(body: Json): set<string> {
    match Get(body, "credentialSubject")
    case None => {}
    case Some(subject) => set i | 0 <= i < |Entries(subject, "catalogAccess")| && Entries(subject, "catalogAccess")[i].Str?
                            :: Entries(subject, "catalogAccess")[i].s
  }

  predicate HasExpectedType(body: Json) {
    Str(EXPECTED_CREDENTIAL_TYPE) in Entries(body, "type")
  }

  function CredentialBody(payload: Json): Json {
    Get(payload, "vc").GetOr(Null)
  }

  /** An expired credential grants nothing; an unexpected type grants the empty set. */
  function VerdictOn(payload: Json, now: Seconds): Verdict {
    if AsU64(Get(payload, "exp")).GetOr(0) <= now then Expired
    else if !HasExpectedType(CredentialBody(payload)) then Grants({})
    else Grants(AccessIds(CredentialBody(payload)))
  }

  function Judge(libs: Libs, vc: Json, get: string -> Fetch, insecureHttp: bool, now: Seconds): Result<Verdict, DcpError> {
    match vc
    case Str(jws) =>
      var credential :- Authenticate(libs, jws, get, insecureHttp);
      Ok(VerdictOn(credential.payload, now))
    case _ => Err(CredentialNotAString)
  }

  // ---------------------------------------------------------------- all credentials

  /** The credential at `i` is judged at clock reading `i + 2`. */
  function Judgements(libs: Libs, vcs: seq<Json>, get: string -> Fetch, insecureHttp: bool, clock: nat -> Seconds)
    : seq<Result<Verdict, DcpError>>
  {
    seq(|vcs|, i requires 0 <= i < |vcs| => Judge(libs, vcs[i], get, insecureHttp, clock(i + 2)))
  }

  function FirstError(judged: seq<Result<Verdict, DcpError>>): Option<DcpError> {
    if judged == [] then None else if judged[0].Err? then Some(judged[0].error) else FirstError(judged[1..])
  }

  predicate AnyExpired(judged: seq<Result<Verdict, DcpError>>) {
    Ok(Expired) in judged
  }

  /** The union over the unexpired credentials. */
  function Granted(judged: seq<Result<Verdict, DcpError>>): set<string> {
    set i, id | 0 <= i < |judged| && judged[i].Ok? && judged[i].value.Grants? && id in judged[i].value.ids :: id
  }

  /** Every credential must verify; nothing granted while something expired is an error too. */
  function Conclude(judged: seq<Result<Verdict, DcpError>>): Result<set<string>, DcpError> {
    match FirstError(judged)
    case Some(e) => Err(e)
    case None =>
      if Granted(judged) == {} && AnyExpired(judged) then Err(AllCredentialsExpired) else Ok(Granted(judged))
  }

  /** The whole verification: clock reading 0 checks T1, reading 1 dates T3. */
  function Verification(libs: Libs, token: string, config: DcpConfig, net: Network, clock: nat -> Seconds, jti: string)
    : Result<VerifiedCaller, DcpError>
  {
    var checked :- CheckToken(libs, token, config, net, clock(0));
    var vp :- QueryPresentation(config, checked, Repackage(libs, config, checked, clock(1), jti), net);
    var vcs :- OpenPresentation(libs, vp, checked.holder.issuerDoc);
    var access :- Conclude(Judgements(libs, vcs, net.get, config.insecureHttp, clock));
    Ok(VerifiedCaller(checked.holder.issuer, access))
  }

  lemma {:induction false} FirstErrorStep(judged: seq<Result<Verdict, DcpError>>, i: nat)
    requires i < |judged|
    ensures FirstError(judged[..i]).Some? ==> FirstError(judged) == FirstError(judged[..i])
    ensures FirstError(judged[..i + 1]) ==
            if FirstError(judged[..i]).Some? then FirstError(judged[..i])
            else if judged[i].Err? then Some(judged[i].error) else None
    decreases i
  {
    if i == 0 {
      assert judged[..1] == [judged[0]];
      assert judged[..1][1..] == [];
    } else {
      FirstErrorStep(judged[1..], i - 1);
      assert judged[..i][1..] == judged[1..][..i - 1];
      assert judged[..i + 1][1..] == judged[1..][..i];
    }
  }

  /** The credential loop. */
  method CollectAccess(libs: Libs, vcs: seq<Json>, get: string -> Fetch, insecureHttp: bool, clock: nat -> Seconds)
    returns (r: Result<set<string>, DcpError>)
    ensures r == Conclude(Judgements(libs, vcs, get, insecureHttp, clock))
  {
    hide Authenticate, CredentialBody, HasExpectedType, AccessIds;
    var catalogAccess: set<string> := {};
    var hadExpiredCredential := false;
    ghost var judged := Judgements(libs, vcs, get, insecureHttp, clock);
    for i := 0 to |vcs|
      invariant FirstError(judged[..i]) == None
      invariant catalogAccess == Granted(judged[..i])
      invariant hadExpiredCredential <==> AnyExpired(judged[..i])
    {
      assert judged[i] == Judge(libs, vcs[i], get, insecureHttp, clock(i + 2));
      FirstErrorStep(judged, i);
      if !vcs[i].Str? {
        ErrorStands(judged, i);
        return Err(CredentialNotAString);
      }
      var credential := Authenticate(libs, vcs[i].s, get, insecureHttp);
      if credential.Err? {
        ErrorStands(judged, i);
        return Err(credential.error);
      }
      GrantedStep(judged, i);
      var payload := credential.value.payload;
      if AsU64(Get(payload, "exp")).GetOr(0) <= clock(i + 2) {
        hadExpiredCredential := true;
        continue;
      }
      var body := CredentialBody(payload);
      if !HasExpectedType(body) {
        continue;
      }
      catalogAccess := catalogAccess + AccessIds(body);
    }
    assert judged[..|vcs|] == judged;
    if catalogAccess == {} && hadExpiredCredential {
      return Err(AllCredentialsExpired);
    }
    r := Ok(catalogAccess);
  }

  method VerifyDcpBearerToken(libs: Libs, token: string, config: DcpConfig, net: Network, clock: nat -> Seconds, jti: string)
    returns (r: Result<VerifiedCaller, DcpError>)
    ensures r == Verification(libs, token, config, net, clock, jti)
  {
    var checked :- CheckToken(libs, token, config, net, clock(0));
    var repackaged := Repackage(libs, config, checked, clock(1), jti);
    var vp :- QueryPresentation(config, checked, repackaged, net);
    var vcs :- OpenPresentation(libs, vp, checked.holder.issuerDoc);
    var catalogAccess :- CollectAccess(libs, vcs, net.get, config.insecureHttp, clock);
    r := Ok(VerifiedCaller(checked.holder.issuer, catalogAccess));
  }

  lemma ErrorStands(judged: seq<Result<Verdict, DcpError>>, i: nat)
    requires i < |judged| && FirstError(judged[..i]) == None && judged[i].Err?
    ensures FirstError(judged) == Some(judged[i].error)
  {
    FirstErrorStep(judged, i);
    if i + 1 < |judged| {
      FirstErrorStep(judged, i + 1);
    } else {
      assert judged[..i + 1] == judged;
    }
  }

  lemma GrantedStep(judged: seq<Result<Verdict, DcpError>>, i: nat)
    requires i < |judged| && judged[i].Ok?
    ensures Granted(judged[..i + 1])
         == Granted(judged[..i]) + if judged[i].value.Grants? then judged[i].value.ids else {}
    ensures AnyExpired(judged[..i + 1]) <==> AnyExpired(judged[..i]) || judged[i].value.Expired?
  {
    assert judged[..i + 1] == judged[..i] + [judged[i]];
  }
}
