/**
 Compact JWS (section 7.1 of RFC 7515) as `crates/dcp-core/src/lib.rs` signs, decodes and verifies it.
 The JSON text codec and the signature scheme are parameters known only by their laws.
 */
module Jws {
  import opened Wrappers
  import opened Json
  import opened Strings
  import opened Bytes
  import Base64Url

  /** A P-256 private scalar. */
  datatype SecretKey = SecretKey(bytes: seq<byte>)

  /** The affine coordinates of a public point. */
  datatype PublicKey = PublicKey(x: seq<byte>, y: seq<byte>)

  /** The libraries the code calls: JSON text, ECDSA, and key material. */
  datatype Libs = Libs(
    toText: Json -> seq<byte>,
    fromText: seq<byte> -> Option<Json>,
    sign: (SecretKey, seq<byte>) -> seq<byte>,
    verify: (PublicKey, seq<byte>, seq<byte>) -> bool,
    publicKey: SecretKey -> PublicKey,
    onCurve: PublicKey -> bool)

  /** JSON reads back as printed, signatures verify under the matching key, public keys are points. */
  ghost predicate Lawful(libs: Libs) {
    && (forall v :: libs.fromText(libs.toText(v)) == Some(v))
    && (forall k, m :: libs.verify(libs.publicKey(k), m, libs.sign(k, m)))
    && (forall k :: libs.onCurve(libs.publicKey(k)) && |libs.publicKey(k).x| == 32 && |libs.publicKey(k).y| == 32)
  }

  datatype DcpError =
    | MissingPayload | MissingSignature | TooManySegments
    | InvalidBase64 | InvalidJson | BadSignature
    | NotDidWeb | DidUnresolvable | InvalidDidDocument
    | NoVerificationMethod | NoPublicKeyJwk | InvalidJwk
    | MissingClaim(name: string) | WrongAudience | TokenExpired
    | NoCredentialService | PresentationQueryFailed | MalformedPresentationResponse | NoPresentation
    | NoCredentials | CredentialNotAString | AllCredentialsExpired

  datatype Decoded = Decoded(signingInput: string, header: Json, payload: Json)

  function DecodeSegment(libs: Libs, segment: string): Result<Json, DcpError> {
    match Base64Url.Decode(segment)
    case None => Err(InvalidBase64)
    case Some(bytes) =>
      match libs.fromText(bytes)
      case None => Err(InvalidJson)
      case Some(v) => Ok(v)
  }

  function DecodeJwsUnverified(libs: Libs, token: string): Result<Decoded, DcpError> {
    var parts := Split(token, '.');
    if |parts| < 2 then Err(MissingPayload)
    else if |parts| < 3 then Err(MissingSignature)
    else if |parts| > 3 then Err(TooManySegments)
    else
      var header :- DecodeSegment(libs, parts[0]);
      var payload :- DecodeSegment(libs, parts[1]);
      Ok(Decoded(parts[0] + "." + parts[1], header, payload))
  }

  /** Looks at the first three segments only. */
  function VerifyJwsSignature(libs: Libs, token: string, key: PublicKey): Result<(), DcpError> {
    var parts := Split(token, '.');
    if |parts| < 2 then Err(MissingPayload)
    else if |parts| < 3 then Err(MissingSignature)
    else
      match Base64Url.Decode(parts[2])
      case None => Err(InvalidBase64)
      case Some(signature) =>
        if libs.verify(key, Utf8(parts[0] + "." + parts[1]), signature) then Ok(()) else Err(BadSignature)
  }

  function JwsHeader(kid: string): Json {
    Obj(map["kid" := Str(kid), "alg" := Str("ES256")])
  }

  function SigningInput(libs: Libs, payload: Json, kid: string): string {
    Base64Url.Encode(libs.toText(JwsHeader(kid))) + "." + Base64Url.Encode(libs.toText(payload))
  }

  function SignJws(libs: Libs, payload: Json, key: SecretKey, kid: string): string {
    var signingInput := SigningInput(libs, payload, kid);
    signingInput + "." + Base64Url.Encode(libs.sign(key, Utf8(signingInput)))
  }

  lemma EncodedHasNoDot(bytes: seq<byte>)
    ensures '.' !in Base64Url.Encode(bytes)
  {
    Base64Url.EncodeUsesAlphabet(bytes);
  }

  lemma ThreeSegments(a: string, b: string, c: string)
    requires '.' !in a && '.' !in b && '.' !in c
    ensures Split(a + "." + b + "." + c, '.') == [a, b, c]
  {
    assert a + "." + b + "." + c == a + ['.'] + (b + ['.'] + c);
    SplitThree(a, b, c, '.');
  }

  /**
   The JWS round trip: for every payload, key and kid, what was signed decodes to the same header,
   payload and signing input, and its signature verifies under the matching key.
   */
  lemma JwsRoundTrip(libs: Libs, payload: Json, key: SecretKey, kid: string)
    requires Lawful(libs)
    ensures
      var token := SignJws(libs, payload, key, kid);
      && DecodeJwsUnverified(libs, token)
         == Ok(Decoded(SigningInput(libs, payload, kid), Obj(map["kid" := Str(kid), "alg" := Str("ES256")]), payload))
      && VerifyJwsSignature(libs, token, libs.publicKey(key)) == Ok(())
  {
    var h, p := libs.toText(JwsHeader(kid)), libs.toText(payload);
    var signature := libs.sign(key, Utf8(SigningInput(libs, payload, kid)));
    EncodedHasNoDot(h);
    EncodedHasNoDot(p);
    EncodedHasNoDot(signature);
    ThreeSegments(Base64Url.Encode(h), Base64Url.Encode(p), Base64Url.Encode(signature));
    Base64Url.DecodeEncode(h);
    Base64Url.DecodeEncode(p);
    Base64Url.DecodeEncode(signature);
  }

  /**
   Decoding and verifying agree: a token that decodes is its signing input, a dot and one more segment,
   and verification checks exactly that signing input against exactly that segment.
   */
  lemma JwsAgreement(libs: Libs, token: string, key: PublicKey) returns (signature: string)
    requires DecodeJwsUnverified(libs, token).Ok?
    ensures '.' !in signature
    ensures token == DecodeJwsUnverified(libs, token).value.signingInput + "." + signature
    ensures VerifyJwsSignature(libs, token, key).Ok? <==>
            && Base64Url.Decode(signature).Some?
            && libs.verify(
                 key, Utf8(DecodeJwsUnverified(libs, token).value.signingInput), Base64Url.Decode(signature).value)
  {
    var parts := Split(token, '.');
    JoinSplit(token, '.');
    assert parts == [parts[0], parts[1], parts[2]];
    JoinThree(parts[0], parts[1], parts[2], ".");
    signature := parts[2];
  }

  /** On its own, verification would accept trailing segments that decoding refuses. */
  lemma VerificationIgnoresTrailingSegments(libs: Libs, token: string, trailing: string, key: PublicKey)
    requires |Split(token, '.')| >= 3
    ensures VerifyJwsSignature(libs, token + "." + trailing, key) == VerifyJwsSignature(libs, token, key)
    ensures DecodeJwsUnverified(libs, token + "." + trailing) == Err(TooManySegments)
  {
    SplitExtended(token, trailing, '.');
  }
}
