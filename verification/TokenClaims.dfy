/** The tokens of the protocol as their receivers decode them: every header member and every claim. */
module TokenClaims {
  import opened Wrappers
  import opened Json
  import opened Jws
  import opened DidDocuments
  import opened Holder
  import opened Verifier
  import Base64Url
  import DidWeb

  /** The token decodes to these claims, names this key, and its signature verifies under the matching public key. */
  ghost predicate Claims(libs: Libs, token: string, key: SecretKey, kid: string, claims: map<string, Json>) {
    var decoded := DecodeJwsUnverified(libs, token);
    && decoded.Ok?
    && decoded.value.header == Obj(map["kid" := Str(kid), "alg" := Str("ES256")])
    && decoded.value.payload == Obj(claims)
    && VerifyJwsSignature(libs, token, libs.publicKey(key)) == Ok(())
  }

  /** T1 names the holder and the provider, lives 300 seconds, and carries T2, which names the holder as its own audience. */
  lemma MintedTokenClaims(libs: Libs, holder: HolderIdentity, providerDid: string, now: Seconds, accessJti: string, tokenJti: string)
    returns (accessToken: string)
    requires Lawful(libs)
    ensures Claims(
      libs, MintSelfIssuedToken(libs, holder, providerDid, now, accessJti, tokenJti), holder.keys.signingKey, holder.keys.ownKeyId,
      map["iss" := Str(holder.keys.ownDid), "sub" := Str(holder.keys.ownDid), "aud" := Str(providerDid), "token" := Str(accessToken),
          "iat" := Int(now), "nbf" := Int(now), "exp" := Int(now + 300), "jti" := Str(tokenJti)])
    ensures Claims(
      libs, accessToken, holder.keys.signingKey, holder.keys.ownKeyId,
      map["iss" := Str(holder.keys.ownDid), "sub" := Str(holder.keys.ownDid), "aud" := Str(holder.keys.ownDid),
          "iat" := Int(now), "nbf" := Int(now), "exp" := Int(now + 300), "jti" := Str(accessJti)])
  {
    hide SignJws, DecodeJwsUnverified, VerifyJwsSignature;
    var access := AccessTokenPayload(holder, now, accessJti);
    accessToken := SignJws(libs, access, holder.keys.signingKey, holder.keys.ownKeyId);
    JwsRoundTrip(libs, access, holder.keys.signingKey, holder.keys.ownKeyId);
    JwsRoundTrip(
      libs, SelfIssuedPayload(holder.keys.ownDid, providerDid, accessToken, now, tokenJti),
      holder.keys.signingKey, holder.keys.ownKeyId);
  }

  /** T3 names this connector and the holder, lives 300 seconds, and carries the holder's T2 as it came. */
  lemma RepackagedClaims(libs: Libs, config: DcpConfig, checked: Checked, now: Seconds, jti: string)
    requires Lawful(libs)
    ensures Claims(
      libs, Repackage(libs, config, checked, now, jti), config.keys.signingKey, config.keys.ownKeyId,
      map["iss" := Str(config.keys.ownDid), "sub" := Str(config.keys.ownDid), "aud" := Str(checked.holder.issuer),
          "token" := Str(checked.accessToken),
          "iat" := Int(now), "nbf" := Int(now), "exp" := Int(now + 300), "jti" := Str(jti)])
  {
    hide SignJws, DecodeJwsUnverified, VerifyJwsSignature;
    JwsRoundTrip(
      libs, SelfIssuedPayload(config.keys.ownDid, checked.holder.issuer, checked.accessToken, now, jti),
      config.keys.signingKey, config.keys.ownKeyId);
  }

  /** The presentation wraps the holder's stored credential and nothing else. */
  lemma AnsweredPresentationClaims(
    libs: Libs, holder: HolderIdentity, token: string, get: string -> Fetch, clock: nat -> Seconds, jti: string)
    requires Lawful(libs) && AnswerPresentationQuery(libs, holder, token, get, clock, jti).Ok?
    ensures
      var vp := Obj(map[
        "@context" := Arr([Str("https://www.w3.org/2018/credentials/v1")]),
        "type" := Arr([Str("VerifiablePresentation")]),
        "verifiableCredential" := Arr([Str(holder.credentialJws)])]);
      Claims(
        libs, AnswerPresentationQuery(libs, holder, token, get, clock, jti).value, holder.keys.signingKey, holder.keys.ownKeyId,
        map["iss" := Str(holder.keys.ownDid), "sub" := Str(holder.keys.ownDid), "vp" := vp,
            "iat" := Int(clock(1)), "exp" := Int(clock(1) + 300), "jti" := Str(jti)])
  {
    hide SignJws, DecodeJwsUnverified, VerifyJwsSignature, Authenticate;
    JwsRoundTrip(libs, PresentationPayload(holder, clock(1), jti), holder.keys.signingKey, holder.keys.ownKeyId);
    assert StringArray([VERIFIABLE_PRESENTATION_CONTEXT]) == Arr([Str("https://www.w3.org/2018/credentials/v1")]);
    assert StringArray(["VerifiablePresentation"]) == Arr([Str("VerifiablePresentation")]);
    assert StringArray([holder.credentialJws]) == Arr([Str(holder.credentialJws)]);
  }

  /** The holder's route answers 404 without a holder, 401 to a request it does not accept, else 200 with one presentation. */
  lemma RouteExactly(
    libs: Libs, holder: Option<HolderIdentity>, header: Option<string>, get: string -> Fetch, clock: nat -> Seconds, jti: string)
    ensures
      var reply := HolderRoute(libs, holder, header, get, clock, jti);
      if holder.None? then reply == Response(404, None)
      else if BearerToken(header).Some? && AnswerPresentationQuery(libs, holder.value, BearerToken(header).value, get, clock, jti).Ok? then
        reply == Response(200, Some(Obj(map["presentation" := Arr(
          [Str(AnswerPresentationQuery(libs, holder.value, BearerToken(header).value, get, clock, jti).value)])])))
      else reply == Response(401, None)
  {
    hide AnswerPresentationQuery, BearerToken;
    forall vp ensures StringArray([vp]) == Arr([Str(vp)]) {}
  }

  /** The holder's document: its DID, one JWK of its key, and one `CredentialService` at its base URL. */
  lemma HolderDocumentIs(libs: Libs, host: string, insecureHttp: bool, credentialJws: string, scope: string, secret: SecretKey)
    requires Lawful(libs)
    ensures
      var holder := NewHolder(libs, host, insecureHttp, credentialJws, scope, secret);
      var did := holder.keys.ownDid;
      && holder.keys.ownKeyId == did + "#dsp-key"
      && HolderDidDocumentJson(holder) == Obj(map[
           "@context" := Arr([Str("https://www.w3.org/ns/did/v1")]),
           "id" := Str(did),
           "verificationMethod" := Arr([Obj(map[
             "id" := Str(did + "#dsp-key"),
             "type" := Str("JsonWebKey2020"),
             "controller" := Str(did),
             "publicKeyJwk" := Obj(map[
               "kty" := Str("EC"),
               "crv" := Str("P-256"),
               "x" := Str(Base64Url.Encode(libs.publicKey(secret).x)),
               "y" := Str(Base64Url.Encode(libs.publicKey(secret).y))])])]),
           "service" := Arr([Obj(map[
             "type" := Str("CredentialService"),
             "serviceEndpoint" := Str((if insecureHttp then "http://" else "https://") + host + "/dsp/holder")])])])
  {
    var holder := NewHolder(libs, host, insecureHttp, credentialJws, scope, secret);
    DidWeb.SchemeIs(insecureHttp);
    var services := HolderServices(holder);
    assert seq(|services|, i requires 0 <= i < |services| => DidServiceJson(services[i])) == [DidServiceJson(services[0])];
    assert StringArray(["https://www.w3.org/ns/did/v1"]) == Arr([Str("https://www.w3.org/ns/did/v1")]);
  }
}
