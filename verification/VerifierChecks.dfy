/** What a token and a presentation must be to pass, in terms of signatures, documents and claims. */
module VerifierChecks {
  import opened Wrappers
  import opened Json
  import opened Jws
  import opened DidDocuments
  import opened Holder
  import opened Verifier
  import Bytes
  import Base64Url

  // ---------------------------------------------------------------- tokens

  /**
   The token decodes, and is its signing input, a dot and a signature that verifies under the key the
   document has for the header's `kid`.
   */
  ghost predicate SignedUnder(libs: Libs, token: string, doc: DidDocument, signature: string) {
    var decoded := DecodeJwsUnverified(libs, token);
    && decoded.Ok? && GetStr(decoded.value.header, "kid").Some?
    && token == decoded.value.signingInput + "." + signature && '.' !in signature
    && Base64Url.Decode(signature).Some?
    && var key := FindVerifyingKey(libs, doc, GetStr(decoded.value.header, "kid").value);
       key.Ok? && libs.verify(key.value, Bytes.Utf8(decoded.value.signingInput), Base64Url.Decode(signature).value)
  }

  ghost predicate Signed(libs: Libs, token: string, doc: DidDocument) {
    exists signature :: SignedUnder(libs, token, doc, signature)
  }

  /** Finding the key and verifying with it succeeds exactly for a token signed under the document. */
  lemma VerifiesExactlyWhenSigned(libs: Libs, token: string, doc: DidDocument)
    requires DecodeJwsUnverified(libs, token).Ok? && GetStr(DecodeJwsUnverified(libs, token).value.header, "kid").Some?
    ensures
      var key := FindVerifyingKey(libs, doc, GetStr(DecodeJwsUnverified(libs, token).value.header, "kid").value);
      Signed(libs, token, doc) <==> key.Ok? && VerifyJwsSignature(libs, token, key.value).Ok?
  {
    hide DecodeJwsUnverified, VerifyJwsSignature, FindVerifyingKey, Base64Url.Decode;
    var decoded := DecodeJwsUnverified(libs, token).value;
    var key := FindVerifyingKey(libs, doc, GetStr(decoded.header, "kid").value);
    if key.Ok? {
      var signature := JwsAgreement(libs, token, key.value);
      if VerifyJwsSignature(libs, token, key.value).Ok? {
        assert SignedUnder(libs, token, doc, signature);
      }
      if other :| SignedUnder(libs, token, doc, other) {
        assert other == token[|decoded.signingInput| + 1..] == signature;
      }
    }
  }

  /** The token is signed under the document its `iss` resolves to. */
  ghost predicate Vouched(libs: Libs, token: string, get: string -> Fetch, insecureHttp: bool, authentic: Authentic) {
    && Signed(libs, token, authentic.issuerDoc)
    && DecodeJwsUnverified(libs, token).value.payload == authentic.payload
    && GetStr(authentic.payload, "iss") == Some(authentic.issuer)
    && ResolveDid(get, authentic.issuer, insecureHttp) == Ok(authentic.issuerDoc)
  }

  /** A token authenticates exactly when it is vouched for. */
  lemma AuthenticExactlyWhenVouched(libs: Libs, token: string, get: string -> Fetch, insecureHttp: bool, authentic: Authentic)
    ensures Authenticate(libs, token, get, insecureHttp) == Ok(authentic) <==> Vouched(libs, token, get, insecureHttp, authentic)
  {
    hide DecodeJwsUnverified, VerifyJwsSignature, ResolveDid, FindVerifyingKey, SignedUnder;
    SignedIsDecoded(libs, token, authentic.issuerDoc);
    var decoded := DecodeJwsUnverified(libs, token);
    if decoded.Ok? && GetStr(decoded.value.header, "kid").Some? {
      VerifiesExactlyWhenSigned(libs, token, authentic.issuerDoc);
    }
  }

  lemma SignedIsDecoded(libs: Libs, token: string, doc: DidDocument)
    ensures Signed(libs, token, doc) ==>
      var decoded := DecodeJwsUnverified(libs, token);
      decoded.Ok? && GetStr(decoded.value.header, "kid").Some?
  {
    hide DecodeJwsUnverified, FindVerifyingKey, Base64Url.Decode;
  }

  ghost predicate Unexpired(payload: Json, now: Seconds) {
    exists expiry :: now < expiry && Get(payload, "exp") == Some(Int(expiry))
  }

  /** The credential is of the expected type and lists the id. */
  ghost predicate ListsAccess(payload: Json, id: string) {
    exists vc, types, subject, ids ::
      && Get(payload, "vc") == Some(vc)
      && Get(vc, "type") == Some(Arr(types)) && Str("FederatedCatalogAccessCredential") in types
      && Get(vc, "credentialSubject") == Some(subject)
      && Get(subject, "catalogAccess") == Some(Arr(ids)) && Str(id) in ids
  }

  lemma AccessIdsAreStrings(body: Json, id: string)
    ensures id in AccessIds(body) <==>
            exists subject, ids ::
              && Get(body, "credentialSubject") == Some(subject)
              && Get(subject, "catalogAccess") == Some(Arr(ids)) && Str(id) in ids
  {
    if subject, ids :|
      && Get(body, "credentialSubject") == Some(subject)
      && Get(subject, "catalogAccess") == Some(Arr(ids)) && Str(id) in ids
    {
      var i :| 0 <= i < |ids| && ids[i] == Str(id);
      assert Entries(subject, "catalogAccess")[i].s in AccessIds(body);
    }
  }

  lemma ExpectedTypeMeans(body: Json)
    ensures HasExpectedType(body) <==>
            exists types :: Get(body, "type") == Some(Arr(types)) && Str("FederatedCatalogAccessCredential") in types
  {
  }

  /**
   The verdict on a credential's claims: expired exactly unless `exp` is a number after now; otherwise an id is
   granted exactly if `vc` has the expected type and its subject's `catalogAccess` lists it.
   */
  lemma VerdictMeans(payload: Json, now: Seconds, id: string)
    ensures VerdictOn(payload, now).Expired? <==> !Unexpired(payload, now)
    ensures VerdictOn(payload, now).Grants? && id in VerdictOn(payload, now).ids <==>
            Unexpired(payload, now) && ListsAccess(payload, id)
  {
    hide HasExpectedType, AccessIds;
    ExpectedTypeMeans(CredentialBody(payload));
    AccessIdsAreStrings(CredentialBody(payload), id);
    assert Get(payload, "vc").None? ==> Get(CredentialBody(payload), "type").None?;
    if Unexpired(payload, now) && ListsAccess(payload, id) {
      assert Get(payload, "vc") == Some(CredentialBody(payload));
    }
  }

  /** T1 is authentic, addressed to this connector, unexpired, and carries a T2. */
  ghost predicate TokenPasses(libs: Libs, token: string, config: DcpConfig, net: Network, now: Seconds, checked: Checked) {
    && Vouched(libs, token, net.get, config.insecureHttp, checked.holder)
    && GetStr(checked.holder.payload, "aud").GetOr("") == config.keys.ownDid
    && Unexpired(checked.holder.payload, now)
    && GetStr(checked.holder.payload, "token") == Some(checked.accessToken)
  }

  lemma TokenAcceptedExactly(libs: Libs, token: string, config: DcpConfig, net: Network, now: Seconds, checked: Checked)
    ensures CheckToken(libs, token, config, net, now) == Ok(checked) <==> TokenPasses(libs, token, config, net, now, checked)
  {
    hide Authenticate, Vouched;
    AuthenticExactlyWhenVouched(libs, token, net.get, config.insecureHttp, checked.holder);
  }

  /** An authentic T1 is refused for its addressee first, then for its age, then for carrying no T2. */
  lemma TokenRefusals(libs: Libs, token: string, config: DcpConfig, net: Network, now: Seconds, holder: Authentic)
    requires Vouched(libs, token, net.get, config.insecureHttp, holder)
    ensures
      var r := CheckToken(libs, token, config, net, now);
      if Get(holder.payload, "aud") != Some(Str(config.keys.ownDid)) && config.keys.ownDid != "" then r == Err(WrongAudience)
      else if Get(holder.payload, "aud") == Some(Str(config.keys.ownDid)) && !Unexpired(holder.payload, now) then r == Err(TokenExpired)
      else r.Err? ==> r.error in {WrongAudience, TokenExpired, MissingClaim("token")}
  {
    hide Authenticate, Vouched;
    AuthenticExactlyWhenVouched(libs, token, net.get, config.insecureHttp, holder);
  }

  /** The holder presents its credential exactly to authentic, unexpired tokens addressed to it. */
  lemma HolderAnswersExactly(libs: Libs, holder: HolderIdentity, token: string, get: string -> Fetch, clock: nat -> Seconds, jti: string)
    ensures
      AnswerPresentationQuery(libs, holder, token, get, clock, jti).Ok? <==>
      exists caller ::
        && Vouched(libs, token, get, holder.insecureHttp, caller)
        && GetStr(caller.payload, "aud").GetOr("") == holder.keys.ownDid
        && Unexpired(caller.payload, clock(0))
  {
    hide Authenticate, SignJws, Vouched;
    forall caller
      ensures Authenticate(libs, token, get, holder.insecureHttp) == Ok(caller) <==> Vouched(libs, token, get, holder.insecureHttp, caller)
    {
      AuthenticExactlyWhenVouched(libs, token, get, holder.insecureHttp, caller);
    }
    var caller := Authenticate(libs, token, get, holder.insecureHttp);
    if caller.Ok? {
      assert Vouched(libs, token, get, holder.insecureHttp, caller.value);
    }
  }

  // ---------------------------------------------------------------- presentations

  /** A successful answer whose `presentation` is a list of strings, this one first. */
  ghost predicate Delivers(reply: Fetch, vp: string) {
    && reply.Response? && 200 <= reply.status < 300 && reply.body.Some?
    && exists rest :: Get(reply.body.value, "presentation") == Some(StringArray([vp] + rest))
  }

  /** The holder's first `CredentialService` delivers the presentation to a bearer of `repackaged`. */
  ghost predicate QueryYields(checked: Checked, repackaged: string, net: Network, vp: string) {
    exists k ::
      && FirstService(checked.holder.issuerDoc.service, "CredentialService", k)
      && Delivers(net.post(checked.holder.issuerDoc.service[k].serviceEndpoint + "/presentations/query", "Bearer " + repackaged), vp)
  }

  lemma {:induction false} ReadsStrings(items: seq<Json>, strings: seq<string>)
    ensures ReadAll(ReadStr, items) == Some(strings) <==> Arr(items) == StringArray(strings)
  {
    if items != [] {
      if strings != [] {
        ReadsStrings(items[1..], strings[1..]);
        assert strings == [strings[0]] + strings[1..];
        assert StringArray(strings).items[1..] == StringArray(strings[1..]).items;
        assert items == [items[0]] + items[1..];
        assert StringArray(strings).items == [Str(strings[0])] + StringArray(strings[1..]).items;
      } else {
        assert |StringArray(strings).items| == 0;
      }
    }
  }

  lemma DeliversExactly(reply: Fetch, vp: string)
    ensures Delivers(reply, vp) <==>
      && reply.Response? && IsSuccess(reply.status) && reply.body.Some?
      && var vps := ReadPresentations(reply.body.value);
         vps.Some? && vps.value != [] && vps.value[0] == vp
  {
    if reply.Response? && reply.body.Some? && AsArray(Get(reply.body.value, "presentation")).Some? {
      var items := AsArray(Get(reply.body.value, "presentation")).value;
      var vps := ReadPresentations(reply.body.value);
      if vps.Some? && vps.value != [] && vps.value[0] == vp {
        ReadsStrings(items, vps.value);
        assert vps.value == [vp] + vps.value[1..];
      }
      if rest :| Get(reply.body.value, "presentation") == Some(StringArray([vp] + rest)) {
        ReadsStrings(items, [vp] + rest);
      }
    }
  }

  lemma QueryYieldsExactly(config: DcpConfig, checked: Checked, repackaged: string, net: Network, vp: string)
    ensures QueryPresentation(config, checked, repackaged, net) == Ok(vp) <==> QueryYields(checked, repackaged, net, vp)
  {
    hide ReadPresentations, Delivers, FindEndpoint, IsSuccess;
    var services := checked.holder.issuerDoc.service;
    var service := FindEndpoint(services, "CredentialService");
    if service.Ok? {
      EndpointOfFirstService(services, "CredentialService", service.value);
      var k :| FirstService(services, "CredentialService", k) && services[k].serviceEndpoint == service.value;
      DeliversExactly(net.post(service.value + "/presentations/query", "Bearer " + repackaged), vp);
      assert forall j :: FirstService(services, "CredentialService", j) ==> j == k;
    } else {
      forall k ensures !FirstService(services, "CredentialService", k) {
        if FirstService(services, "CredentialService", k) {
          EndpointOfFirstService(services, "CredentialService", services[k].serviceEndpoint);
        }
      }
    }
  }

  /** The presentation is signed under the holder's document and holds these credentials, at least one. */
  ghost predicate PresentationStands(libs: Libs, vp: string, doc: DidDocument, credentials: seq<Json>) {
    && Signed(libs, vp, doc)
    && credentials != []
    && var body := Get(DecodeJwsUnverified(libs, vp).value.payload, "vp");
       body.Some? && Get(body.value, "verifiableCredential") == Some(Arr(credentials))
  }

  lemma PresentationOpensExactly(libs: Libs, vp: string, doc: DidDocument, credentials: seq<Json>)
    ensures OpenPresentation(libs, vp, doc) == Ok(credentials) <==> PresentationStands(libs, vp, doc, credentials)
  {
    hide DecodeJwsUnverified, VerifyJwsSignature, FindVerifyingKey, Signed;
    SignedIsDecoded(libs, vp, doc);
    var decoded := DecodeJwsUnverified(libs, vp);
    if decoded.Ok? && GetStr(decoded.value.header, "kid").Some? {
      VerifiesExactlyWhenSigned(libs, vp, doc);
    }
  }
}
