/** DID documents, key lookup and HTTP outcomes (`crates/dcp-core/src/lib.rs`). */
module DidDocuments {
  import opened Wrappers
  import opened Json
  import opened Jws
  import opened DidWeb
  import Base64Url

  /** A reading of `now_secs`, such that adding a token lifetime does not overflow a `u64`. */
  type Seconds = n: nat | n + 300 < U64_LIMIT

  /** How a request ends: no response at all, or a status and a body that may fail to be JSON. */
  datatype Fetch = TransportError | Response(status: nat, body: Option<Json>)

  predicate IsSuccess(status: nat) {
    200 <= status < 300
  }

  datatype Jwk = Jwk(x: string, y: string)

  datatype VerificationMethod = VerificationMethod(id: string, publicKeyJwk: Option<Jwk>)

  datatype DidService = DidService(ty: string, serviceEndpoint: string)

  datatype DidDocument = DidDocument(verificationMethod: seq<VerificationMethod>, service: seq<DidService>)

  // ---------------------------------------------------------------- deserialization

  function ReadAll<T>(read: Json -> Option<T>, items: seq<Json>): Option<seq<T>> {
    if items == [] then Some([])
    else
      match (read(items[0]), ReadAll(read, items[1..]))
      case (Some(x), Some(rest)) => Some([x] + rest)
      case _ => None
  }

  function ReadVerificationMethod(v: Json): Option<VerificationMethod> {
    match (GetStr(v, "id"), Get(v, "publicKeyJwk"))
    case (Some(id), None) => Some(VerificationMethod(id, None))
    case (Some(id), Some(Null)) => Some(VerificationMethod(id, None))
    case (Some(id), Some(jwk)) =>
      (match (GetStr(jwk, "x"), GetStr(jwk, "y"))
       case (Some(x), Some(y)) => Some(VerificationMethod(id, Some(Jwk(x, y))))
       case _ => None)
    case _ => None
  }

  function ReadDidService(v: Json): Option<DidService> {
    match (GetStr(v, "type"), GetStr(v, "serviceEndpoint"))
    case (Some(ty), Some(endpoint)) => Some(DidService(ty, endpoint))
    case _ => None
  }

  /** An absent list is empty, anything but a list is an error. */
  function ReadList<T>(read: Json -> Option<T>, v: Option<Json>): Option<seq<T>> {
    match v
    case None => Some([])
    case Some(Arr(items)) => ReadAll(read, items)
    case _ => None
  }

  function ReadDidDocument(v: Json): Option<DidDocument> {
    if !v.Obj? then None
    else
      match (ReadList(ReadVerificationMethod, Get(v, "verificationMethod")), ReadList(ReadDidService, Get(v, "service")))
      case (Some(methods), Some(services)) => Some(DidDocument(methods, services))
      case _ => None
  }

  // ---------------------------------------------------------------- resolution and lookup

  function ResolveDid(get: string -> Fetch, did: string, insecureHttp: bool): Result<DidDocument, DcpError> {
    var url :- DidWebToUrl(did, insecureHttp);
    match get(url)
    case TransportError => Err(DidUnresolvable)
    case Response(status, body) =>
      if !IsSuccess(status) then Err(DidUnresolvable)
      else
        match body
        case None => Err(InvalidDidDocument)
        case Some(v) =>
          match ReadDidDocument(v)
          case None => Err(InvalidDidDocument)
          case Some(doc) => Ok(doc)
  }

  /** A DID resolves exactly if its URL answers with a status from 200 to 299 and a body that reads as a document. */
  lemma ResolvesExactly(get: string -> Fetch, did: string, insecureHttp: bool, doc: DidDocument)
    ensures ResolveDid(get, did, insecureHttp) == Ok(doc) <==>
            exists url, status: nat, v ::
              && DidWebToUrl(did, insecureHttp) == Ok(url)
              && get(url) == Response(status, Some(v)) && 200 <= status < 300
              && ReadDidDocument(v) == Some(doc)
  {
    hide DidWebToUrl, ReadDidDocument;
  }

  ghost predicate MethodReads(v: Json, m: VerificationMethod) {
    && TextAt(v, "id", m.id)
    && match m.publicKeyJwk
       case None => "publicKeyJwk" !in v.members || v.members["publicKeyJwk"] == Null
       case Some(jwk) =>
         "publicKeyJwk" in v.members && TextAt(v.members["publicKeyJwk"], "x", jwk.x) && TextAt(v.members["publicKeyJwk"], "y", jwk.y)
  }

  ghost predicate ServiceReads(v: Json, s: DidService) {
    TextAt(v, "type", s.ty) && TextAt(v, "serviceEndpoint", s.serviceEndpoint)
  }

  lemma {:induction false} ReadsAllMethods(items: seq<Json>, methods: seq<VerificationMethod>)
    ensures ReadAll(ReadVerificationMethod, items) == Some(methods) <==>
            |items| == |methods| && forall i :: 0 <= i < |items| ==> MethodReads(items[i], methods[i])
  {
    hide ReadVerificationMethod, MethodReads;
    if items != [] && methods != [] {
      ReadsAllMethods(items[1..], methods[1..]);
      MethodReadsExactly(items[0], methods[0]);
      assert methods == [methods[0]] + methods[1..];
      assert forall i :: 0 <= i < |items| - 1 ==> items[1..][i] == items[i + 1];
      assert forall i :: 0 <= i < |methods| - 1 ==> methods[1..][i] == methods[i + 1];
      assert forall i :: 0 < i < |items| ==> items[i] == items[1..][i - 1];
      assert forall i :: 0 < i < |methods| ==> methods[i] == methods[1..][i - 1];
    }
  }

  lemma MethodReadsExactly(v: Json, m: VerificationMethod)
    ensures ReadVerificationMethod(v) == Some(m) <==> MethodReads(v, m)
  {
  }

  lemma {:induction false} ReadsAllServices(items: seq<Json>, services: seq<DidService>)
    ensures ReadAll(ReadDidService, items) == Some(services) <==>
            |items| == |services| && forall i :: 0 <= i < |items| ==> ServiceReads(items[i], services[i])
  {
    hide ReadDidService, ServiceReads;
    if items != [] && services != [] {
      ReadsAllServices(items[1..], services[1..]);
      ServiceReadsExactly(items[0], services[0]);
      assert services == [services[0]] + services[1..];
      assert forall i :: 0 <= i < |items| - 1 ==> items[1..][i] == items[i + 1];
      assert forall i :: 0 <= i < |services| - 1 ==> services[1..][i] == services[i + 1];
      assert forall i :: 0 < i < |items| ==> items[i] == items[1..][i - 1];
      assert forall i :: 0 < i < |services| ==> services[i] == services[1..][i - 1];
    }
  }

  lemma ServiceReadsExactly(v: Json, s: DidService)
    ensures ReadDidService(v) == Some(s) <==> ServiceReads(v, s)
  {
  }

  /** The list under the key is read entry by entry; an absent one is empty. */
  ghost predicate MethodsRead(v: Json, methods: seq<VerificationMethod>)
    requires v.Obj?
  {
    if "verificationMethod" !in v.members then methods == []
    else
      var list := v.members["verificationMethod"];
      list.Arr? && |list.items| == |methods| && forall i :: 0 <= i < |methods| ==> MethodReads(list.items[i], methods[i])
  }

  ghost predicate ServicesRead(v: Json, services: seq<DidService>)
    requires v.Obj?
  {
    if "service" !in v.members then services == []
    else
      var list := v.members["service"];
      list.Arr? && |list.items| == |services| && forall i :: 0 <= i < |services| ==> ServiceReads(list.items[i], services[i])
  }

  lemma MethodsReadExactly(v: Json, methods: seq<VerificationMethod>)
    requires v.Obj?
    ensures ReadList(ReadVerificationMethod, Get(v, "verificationMethod")) == Some(methods) <==> MethodsRead(v, methods)
  {
    hide MethodReads, ReadAll, ReadVerificationMethod;
    if "verificationMethod" in v.members && v.members["verificationMethod"].Arr? {
      ReadsAllMethods(v.members["verificationMethod"].items, methods);
    }
  }

  lemma ServicesReadExactly(v: Json, services: seq<DidService>)
    requires v.Obj?
    ensures ReadList(ReadDidService, Get(v, "service")) == Some(services) <==> ServicesRead(v, services)
  {
    hide ServiceReads, ReadAll, ReadDidService;
    if "service" in v.members && v.members["service"].Arr? {
      ReadsAllServices(v.members["service"].items, services);
    }
  }

  /** A document is read exactly entry by entry; anything amiss makes it unreadable. */
  lemma DocumentReadsExactly(v: Json, doc: DidDocument)
    ensures ReadDidDocument(v) == Some(doc) <==> v.Obj? && MethodsRead(v, doc.verificationMethod) && ServicesRead(v, doc.service)
  {
    hide MethodsRead, ServicesRead, ReadList;
    if v.Obj? {
      MethodsReadExactly(v, doc.verificationMethod);
      ServicesReadExactly(v, doc.service);
    }
  }

  function JwkToVerifyingKey(libs: Libs, jwk: Jwk): Result<PublicKey, DcpError> {
    match (Base64Url.Decode(jwk.x), Base64Url.Decode(jwk.y))
    case (Some(x), Some(y)) =>
      if |x| != 32 || |y| != 32 then Err(InvalidJwk)
      else if !libs.onCurve(PublicKey(x, y)) then Err(InvalidJwk)
      else Ok(PublicKey(x, y))
    case _ => Err(InvalidBase64)
  }

  /** A JWK is the point whose two coordinates it encodes, 32 bytes each. */
  lemma JwkExactly(libs: Libs, jwk: Jwk, key: PublicKey)
    ensures JwkToVerifyingKey(libs, jwk) == Ok(key) <==>
            && Base64Url.Decode(jwk.x) == Some(key.x) && |key.x| == 32
            && Base64Url.Decode(jwk.y) == Some(key.y) && |key.y| == 32
            && libs.onCurve(key)
  {
    hide Base64Url.Decode;
  }

  /** The first method of that id decides. */
  function FindKey(libs: Libs, methods: seq<VerificationMethod>, kid: string): Result<PublicKey, DcpError> {
    if methods == [] then Err(NoVerificationMethod)
    else if methods[0].id != kid then FindKey(libs, methods[1..], kid)
    else
      match methods[0].publicKeyJwk
      case None => Err(NoPublicKeyJwk)
      case Some(jwk) => JwkToVerifyingKey(libs, jwk)
  }

  ghost predicate FirstMethod(methods: seq<VerificationMethod>, kid: string, k: int) {
    0 <= k < |methods| && methods[k].id == kid && forall j :: 0 <= j < k ==> methods[j].id != kid
  }

  /** A key is found exactly when the first method of that id has a JWK that is a point, and it is that point. */
  lemma {:induction false} KeyOfFirstMethod(libs: Libs, methods: seq<VerificationMethod>, kid: string, key: PublicKey)
    ensures FindKey(libs, methods, kid) == Ok(key) <==>
            exists k :: FirstMethod(methods, kid, k) && methods[k].publicKeyJwk.Some? &&
                        JwkToVerifyingKey(libs, methods[k].publicKeyJwk.value) == Ok(key)
  {
    hide JwkToVerifyingKey;
    if methods == [] {
    } else if methods[0].id == kid {
      assert FirstMethod(methods, kid, 0);
    } else {
      KeyOfFirstMethod(libs, methods[1..], kid, key);
      if k :| FirstMethod(methods[1..], kid, k) {
        assert FirstMethod(methods, kid, k + 1);
      }
      if k :| FirstMethod(methods, kid, k) {
        assert FirstMethod(methods[1..], kid, k - 1);
      }
    }
  }

  function FindVerifyingKey(libs: Libs, doc: DidDocument, kid: string): Result<PublicKey, DcpError> {
    FindKey(libs, doc.verificationMethod, kid)
  }

  function FindEndpoint(services: seq<DidService>, ty: string): Result<string, DcpError> {
    if services == [] then Err(NoCredentialService)
    else if services[0].ty == ty then Ok(services[0].serviceEndpoint)
    else FindEndpoint(services[1..], ty)
  }

  ghost predicate FirstService(services: seq<DidService>, ty: string, k: int) {
    0 <= k < |services| && services[k].ty == ty && forall j :: 0 <= j < k ==> services[j].ty != ty
  }

  /** The endpoint found is that of the first service of the type, if there is one. */
  lemma {:induction false} EndpointOfFirstService(services: seq<DidService>, ty: string, endpoint: string)
    ensures FindEndpoint(services, ty) == Ok(endpoint) <==>
            exists k :: FirstService(services, ty, k) && services[k].serviceEndpoint == endpoint
  {
    if services == [] {
    } else if services[0].ty == ty {
      assert FirstService(services, ty, 0);
    } else {
      EndpointOfFirstService(services[1..], ty, endpoint);
      if k :| FirstService(services[1..], ty, k) {
        assert FirstService(services, ty, k + 1);
      }
      if k :| FirstService(services, ty, k) {
        assert FirstService(services[1..], ty, k - 1);
      }
    }
  }

  /** Resolving and reading documents fails in ways of its own. */
  lemma {:induction false} FindKeyErrors(libs: Libs, methods: seq<VerificationMethod>, kid: string)
    ensures FindKey(libs, methods, kid).Err? ==> FindKey(libs, methods, kid).error != AllCredentialsExpired
  {
    if methods != [] {
      FindKeyErrors(libs, methods[1..], kid);
    }
  }

  // ---------------------------------------------------------------- own identity

  datatype DcpKeyPair = DcpKeyPair(ownDid: string, ownKeyId: string, signingKey: SecretKey, publicKey: PublicKey)

  function GenerateKeyPair(libs: Libs, ownDid: string, secret: SecretKey): DcpKeyPair {
    DcpKeyPair(ownDid, ownDid + "#dsp-key", secret, libs.publicKey(secret))
  }

  function DidServiceJson(s: DidService): Json {
    Obj(map["type" := Str(s.ty), "serviceEndpoint" := Str(s.serviceEndpoint)])
  }

  function DidDocumentJson(keys: DcpKeyPair, services: seq<DidService>): Json {
    var jwk := Obj(map[
      "kty" := Str("EC"),
      "crv" := Str("P-256"),
      "x" := Str(Base64Url.Encode(keys.publicKey.x)),
      "y" := Str(Base64Url.Encode(keys.publicKey.y))]);
    var verificationMethod := Obj(map[
      "id" := Str(keys.ownKeyId),
      "type" := Str("JsonWebKey2020"),
      "controller" := Str(keys.ownDid),
      "publicKeyJwk" := jwk]);
    Obj(map[
      "@context" := StringArray(["https://www.w3.org/ns/did/v1"]),
      "id" := Str(keys.ownDid),
      "verificationMethod" := Arr([verificationMethod]),
      "service" := Arr(seq(|services|, i requires 0 <= i < |services| => DidServiceJson(services[i])))])
  }

  function OwnDidDocument(keys: DcpKeyPair, services: seq<DidService>): DidDocument {
    var jwk := Jwk(Base64Url.Encode(keys.publicKey.x), Base64Url.Encode(keys.publicKey.y));
    DidDocument([VerificationMethod(keys.ownKeyId, Some(jwk))], services)
  }

  lemma {:induction false} ServicesReadBack(services: seq<DidService>)
    ensures ReadAll(ReadDidService, seq(|services|, i requires 0 <= i < |services| => DidServiceJson(services[i]))) == Some(services)
  {
    var items := seq(|services|, i requires 0 <= i < |services| => DidServiceJson(services[i]));
    if services != [] {
      var rest := services[1..];
      assert items[1..] == seq(|rest|, i requires 0 <= i < |rest| => DidServiceJson(rest[i]));
      ServicesReadBack(rest);
      assert Get(items[0], "type") == Some(Str(services[0].ty));
      assert Get(items[0], "serviceEndpoint") == Some(Str(services[0].serviceEndpoint));
      assert services == [services[0]] + rest;
    }
  }

  /** The document a party publishes reads back as its key and its services. */
  lemma OwnDocumentReadsBack(keys: DcpKeyPair, services: seq<DidService>)
    ensures ReadDidDocument(DidDocumentJson(keys, services)) == Some(OwnDidDocument(keys, services))
  {
    var v := DidDocumentJson(keys, services);
    var methods := Get(v, "verificationMethod");
    assert methods.Some? && methods.value.Arr? && |methods.value.items| == 1;
    var m := methods.value.items[0];
    assert Get(m, "id") == Some(Str(keys.ownKeyId));
    var jwk := Get(m, "publicKeyJwk").value;
    assert Get(jwk, "x") == Some(Str(Base64Url.Encode(keys.publicKey.x)));
    assert Get(jwk, "y") == Some(Str(Base64Url.Encode(keys.publicKey.y)));
    assert ReadVerificationMethod(m) == Some(OwnDidDocument(keys, services).verificationMethod[0]);
    assert methods.value.items == [m] && [m][1..] == [];
    assert ReadAll(ReadVerificationMethod, [m][1..]) == Some([]);
    var own := OwnDidDocument(keys, services).verificationMethod;
    assert own == [own[0]] + [];
    assert ReadAll(ReadVerificationMethod, [m]) == Some(own);
    ServicesReadBack(services);
    assert Get(v, "service") == Some(Arr(seq(|services|, i requires 0 <= i < |services| => DidServiceJson(services[i]))));
  }

  /** The key a party signs with is the key its own document advertises under its key id. */
  lemma OwnKeyIsFound(libs: Libs, ownDid: string, secret: SecretKey, services: seq<DidService>)
    requires Lawful(libs)
    ensures
      var keys := GenerateKeyPair(libs, ownDid, secret);
      FindVerifyingKey(libs, OwnDidDocument(keys, services), keys.ownKeyId) == Ok(libs.publicKey(secret))
  {
    var key := libs.publicKey(secret);
    Base64Url.DecodeEncode(key.x);
    Base64Url.DecodeEncode(key.y);
  }
}
