/** When the verifier accepts, what it grants, and what neither depends on. */
module VerifierProperties {
  import opened Wrappers
  import opened Json
  import opened Jws
  import opened DidDocuments
  import opened Holder
  import opened Verifier
  import opened VerifierChecks
  import Base64Url

  lemma {:induction false} NoErrorExactlyWhenAllOk(judged: seq<Result<Verdict, DcpError>>)
    ensures FirstError(judged).None? <==> forall i :: 0 <= i < |judged| ==> judged[i].Ok?
  {
    if judged != [] && judged[0].Ok? {
      NoErrorExactlyWhenAllOk(judged[1..]);
      if i :| 0 <= i < |judged| && judged[i].Err? {
        assert judged[1..][i - 1] == judged[i];
      }
      assert forall i :: 0 <= i < |judged| - 1 ==> judged[1..][i] == judged[i + 1];
    }
  }

  /** The credential verifies: a string, decodable, signed under a key its issuer publishes. */
  ghost predicate Verifies(libs: Libs, vc: Json, get: string -> Fetch, insecureHttp: bool) {
    vc.Str? && Authenticate(libs, vc.s, get, insecureHttp).Ok?
  }

  ghost predicate IsExpired(libs: Libs, vc: Json, get: string -> Fetch, insecureHttp: bool, now: Seconds)
    requires Verifies(libs, vc, get, insecureHttp)
  {
    !Unexpired(Authenticate(libs, vc.s, get, insecureHttp).value.payload, now)
  }

  /** An unexpired credential of the expected type lists the id. */
  ghost predicate GrantsId(libs: Libs, vc: Json, get: string -> Fetch, insecureHttp: bool, now: Seconds, id: string)
    requires Verifies(libs, vc, get, insecureHttp)
  {
    var payload := Authenticate(libs, vc.s, get, insecureHttp).value.payload;
    Unexpired(payload, now) && ListsAccess(payload, id)
  }

  lemma JudgeMeans(libs: Libs, vc: Json, get: string -> Fetch, insecureHttp: bool, now: Seconds, id: string)
    ensures Judge(libs, vc, get, insecureHttp, now).Ok? <==> Verifies(libs, vc, get, insecureHttp)
    ensures Verifies(libs, vc, get, insecureHttp) ==>
      var verdict := Judge(libs, vc, get, insecureHttp, now).value;
      && (verdict.Expired? <==> IsExpired(libs, vc, get, insecureHttp, now))
      && (verdict.Grants? && id in verdict.ids <==> GrantsId(libs, vc, get, insecureHttp, now, id))
  {
    hide Authenticate, VerdictOn, Unexpired, ListsAccess;
    if Verifies(libs, vc, get, insecureHttp) {
      VerdictMeans(Authenticate(libs, vc.s, get, insecureHttp).value.payload, now, id);
    }
  }

  ghost predicate AllVerify(libs: Libs, vcs: seq<Json>, get: string -> Fetch, insecureHttp: bool) {
    forall i :: 0 <= i < |vcs| ==> Verifies(libs, vcs[i], get, insecureHttp)
  }

  ghost predicate SomeExpired(libs: Libs, vcs: seq<Json>, get: string -> Fetch, insecureHttp: bool, clock: nat -> Seconds)
    requires AllVerify(libs, vcs, get, insecureHttp)
  {
    exists i :: 0 <= i < |vcs| && IsExpired(libs, vcs[i], get, insecureHttp, clock(i + 2))
  }

  ghost predicate SomeGrants(libs: Libs, vcs: seq<Json>, get: string -> Fetch, insecureHttp: bool, clock: nat -> Seconds, id: string)
    requires AllVerify(libs, vcs, get, insecureHttp)
  {
    exists i :: 0 <= i < |vcs| && GrantsId(libs, vcs[i], get, insecureHttp, clock(i + 2), id)
  }

  ghost predicate ConclusionMeans(
    libs: Libs, vcs: seq<Json>, get: string -> Fetch, insecureHttp: bool, clock: nat -> Seconds, r: Result<set<string>, DcpError>)
  {
    && (r.Ok? <==>
          && AllVerify(libs, vcs, get, insecureHttp)
          && ((exists id :: SomeGrants(libs, vcs, get, insecureHttp, clock, id))
              || !SomeExpired(libs, vcs, get, insecureHttp, clock)))
    && (r.Ok? ==> forall id :: id in r.value <==> SomeGrants(libs, vcs, get, insecureHttp, clock, id))
  }

  lemma AllVerifyMeans(libs: Libs, vcs: seq<Json>, get: string -> Fetch, insecureHttp: bool, clock: nat -> Seconds)
    ensures FirstError(Judgements(libs, vcs, get, insecureHttp, clock)).None? <==> AllVerify(libs, vcs, get, insecureHttp)
  {
    hide Authenticate, VerdictOn;
    var judged := Judgements(libs, vcs, get, insecureHttp, clock);
    NoErrorExactlyWhenAllOk(judged);
    forall i | 0 <= i < |vcs| ensures judged[i].Ok? <==> Verifies(libs, vcs[i], get, insecureHttp) {
      JudgeMeans(libs, vcs[i], get, insecureHttp, clock(i + 2), "");
    }
  }

  lemma GrantedMeans(libs: Libs, vcs: seq<Json>, get: string -> Fetch, insecureHttp: bool, clock: nat -> Seconds, id: string)
    requires AllVerify(libs, vcs, get, insecureHttp)
    ensures id in Granted(Judgements(libs, vcs, get, insecureHttp, clock)) <==> SomeGrants(libs, vcs, get, insecureHttp, clock, id)
  {
    hide Authenticate, VerdictOn;
    var judged := Judgements(libs, vcs, get, insecureHttp, clock);
    forall i | 0 <= i < |vcs|
      ensures judged[i].Ok?
      ensures judged[i].value.Grants? && id in judged[i].value.ids <==> GrantsId(libs, vcs[i], get, insecureHttp, clock(i + 2), id)
    {
      JudgeMeans(libs, vcs[i], get, insecureHttp, clock(i + 2), id);
    }
  }

  lemma AnyExpiredMeans(libs: Libs, vcs: seq<Json>, get: string -> Fetch, insecureHttp: bool, clock: nat -> Seconds)
    requires AllVerify(libs, vcs, get, insecureHttp)
    ensures AnyExpired(Judgements(libs, vcs, get, insecureHttp, clock)) <==> SomeExpired(libs, vcs, get, insecureHttp, clock)
  {
    hide Authenticate, VerdictOn;
    var judged := Judgements(libs, vcs, get, insecureHttp, clock);
    forall i | 0 <= i < |vcs|
      ensures judged[i] == Ok(Expired) <==> IsExpired(libs, vcs[i], get, insecureHttp, clock(i + 2))
    {
      JudgeMeans(libs, vcs[i], get, insecureHttp, clock(i + 2), "");
    }
    if SomeExpired(libs, vcs, get, insecureHttp, clock) {
      var i :| 0 <= i < |vcs| && IsExpired(libs, vcs[i], get, insecureHttp, clock(i + 2));
      assert judged[i] == Ok(Expired);
    }
  }

  /** All credentials verify, and something is granted unless nothing expired; the grant is the union. */
  lemma ConclusionCharacterisation(libs: Libs, vcs: seq<Json>, get: string -> Fetch, insecureHttp: bool, clock: nat -> Seconds)
    ensures ConclusionMeans(libs, vcs, get, insecureHttp, clock, Conclude(Judgements(libs, vcs, get, insecureHttp, clock)))
  {
    AllVerifyMeans(libs, vcs, get, insecureHttp, clock);
    if AllVerify(libs, vcs, get, insecureHttp) {
      var granted := Granted(Judgements(libs, vcs, get, insecureHttp, clock));
      AnyExpiredMeans(libs, vcs, get, insecureHttp, clock);
      forall id ensures id in granted <==> SomeGrants(libs, vcs, get, insecureHttp, clock, id) {
        GrantedMeans(libs, vcs, get, insecureHttp, clock, id);
      }
      assert granted != {} ==> exists id :: id in granted;
    }
  }

  /** The token passes, the holder delivers `vp` for it, and that presentation stands with these credentials. */
  ghost predicate Presents(
    libs: Libs, token: string, config: DcpConfig, net: Network, clock: nat -> Seconds, jti: string,
    checked: Checked, vp: string, credentials: seq<Json>)
  {
    && TokenPasses(libs, token, config, net, clock(0), checked)
    && QueryYields(checked, Repackage(libs, config, checked, clock(1), jti), net, vp)
    && PresentationStands(libs, vp, checked.holder.issuerDoc, credentials)
  }

  lemma PresentsExactly(
    libs: Libs, token: string, config: DcpConfig, net: Network, clock: nat -> Seconds, jti: string,
    checked: Checked, vp: string, credentials: seq<Json>)
    ensures
      Presents(libs, token, config, net, clock, jti, checked, vp, credentials) <==>
      && CheckToken(libs, token, config, net, clock(0)) == Ok(checked)
      && QueryPresentation(config, checked, Repackage(libs, config, checked, clock(1), jti), net) == Ok(vp)
      && OpenPresentation(libs, vp, checked.holder.issuerDoc) == Ok(credentials)
  {
    hide CheckToken, QueryPresentation, OpenPresentation, Repackage, TokenPasses, QueryYields, PresentationStands;
    TokenAcceptedExactly(libs, token, config, net, clock(0), checked);
    QueryYieldsExactly(config, checked, Repackage(libs, config, checked, clock(1), jti), net, vp);
    PresentationOpensExactly(libs, vp, checked.holder.issuerDoc, credentials);
  }

  /**
   Verification succeeds exactly when the token passes, the presentation it leads to stands, every credential
   in it verifies, and not "nothing granted while something expired"; an id is granted exactly if an
   unexpired credential of the expected type lists it.
   */
  lemma VerifierCharacterisation(
    libs: Libs, token: string, config: DcpConfig, net: Network, clock: nat -> Seconds, jti: string)
    ensures
      var r := Verification(libs, token, config, net, clock, jti);
      && (r.Ok? ==> exists checked, vp, credentials :: Presents(libs, token, config, net, clock, jti, checked, vp, credentials))
      && (forall checked, vp, credentials :: Presents(libs, token, config, net, clock, jti, checked, vp, credentials) ==>
            && (r.Ok? ==> r.value.holderDid == checked.holder.issuer)
            && ConclusionMeans(
                 libs, credentials, net.get, config.insecureHttp, clock,
                 if r.Ok? then Ok(r.value.catalogAccess) else Err(r.error)))
  {
    hide CheckToken, QueryPresentation, OpenPresentation, Repackage, Conclude, Judgements, ConclusionMeans, Presents;
    var checked := CheckToken(libs, token, config, net, clock(0));
    if checked.Ok? {
      var vp := QueryPresentation(config, checked.value, Repackage(libs, config, checked.value, clock(1), jti), net);
      if vp.Ok? {
        var credentials := OpenPresentation(libs, vp.value, checked.value.holder.issuerDoc);
        if credentials.Ok? {
          PresentsExactly(libs, token, config, net, clock, jti, checked.value, vp.value, credentials.value);
          ConclusionCharacterisation(libs, credentials.value, net.get, config.insecureHttp, clock);
        }
      }
    }
    forall checked, vp, credentials | Presents(libs, token, config, net, clock, jti, checked, vp, credentials)
      ensures
        && CheckToken(libs, token, config, net, clock(0)) == Ok(checked)
        && QueryPresentation(config, checked, Repackage(libs, config, checked, clock(1), jti), net) == Ok(vp)
        && OpenPresentation(libs, vp, checked.holder.issuerDoc) == Ok(credentials)
    {
      PresentsExactly(libs, token, config, net, clock, jti, checked, vp, credentials);
    }
  }

  /**
   With the clock standing still, a presentation with the same credentials in another order, or with
   repetitions, leads to the same verification: refused both times or the same caller with the same grant.
   */
  lemma VerificationOrderIrrelevant(
    libs: Libs, token: string, config: DcpConfig, net: Network, other: Network, clock: nat -> Seconds, jti: string,
    checked: Checked, vp: string, credentials: seq<Json>, otherVp: string, permuted: seq<Json>)
    requires net.get == other.get && forall i, j :: clock(i) == clock(j)
    requires Presents(libs, token, config, net, clock, jti, checked, vp, credentials)
    requires Presents(libs, token, config, other, clock, jti, checked, otherVp, permuted)
    requires forall vc :: vc in credentials <==> vc in permuted
    ensures
      var r, p := Verification(libs, token, config, net, clock, jti), Verification(libs, token, config, other, clock, jti);
      && (r.Ok? <==> p.Ok?)
      && (r.Ok? ==> r == p)
  {
    hide CheckToken, QueryPresentation, OpenPresentation, Repackage, Conclude, Judgements, Presents;
    PresentsExactly(libs, token, config, net, clock, jti, checked, vp, credentials);
    PresentsExactly(libs, token, config, other, clock, jti, checked, otherVp, permuted);
    CredentialOrderIrrelevant(libs, credentials, permuted, net.get, config.insecureHttp, clock);
  }

  /** With the clock standing still, neither outcome nor grant depends on order or repetition. */
  lemma CredentialOrderIrrelevant(
    libs: Libs, vcs: seq<Json>, permuted: seq<Json>, get: string -> Fetch, insecureHttp: bool, clock: nat -> Seconds)
    requires forall vc :: vc in vcs <==> vc in permuted
    requires forall i, j :: clock(i) == clock(j)
    ensures
      var r := Conclude(Judgements(libs, vcs, get, insecureHttp, clock));
      var p := Conclude(Judgements(libs, permuted, get, insecureHttp, clock));
      && (r.Ok? <==> p.Ok?)
      && (r.Ok? ==> r == p)
  {
    ConclusionIncluded(libs, vcs, permuted, get, insecureHttp, clock);
    ConclusionIncluded(libs, permuted, vcs, get, insecureHttp, clock);
  }

  lemma ConclusionIncluded(
    libs: Libs, vcs: seq<Json>, others: seq<Json>, get: string -> Fetch, insecureHttp: bool, clock: nat -> Seconds)
    requires forall vc :: vc in vcs <==> vc in others
    requires forall i, j :: clock(i) == clock(j)
    ensures Conclude(Judgements(libs, vcs, get, insecureHttp, clock)).Ok? ==>
              Conclude(Judgements(libs, others, get, insecureHttp, clock)) == Conclude(Judgements(libs, vcs, get, insecureHttp, clock))
  {
    if Conclude(Judgements(libs, vcs, get, insecureHttp, clock)).Ok? {
      ConclusionSame(libs, vcs, others, get, insecureHttp, clock);
    }
  }

  lemma ConclusionSame(
    libs: Libs, vcs: seq<Json>, others: seq<Json>, get: string -> Fetch, insecureHttp: bool, clock: nat -> Seconds)
    requires forall vc :: vc in vcs <==> vc in others
    requires forall i, j :: clock(i) == clock(j)
    requires Conclude(Judgements(libs, vcs, get, insecureHttp, clock)).Ok?
    ensures Conclude(Judgements(libs, others, get, insecureHttp, clock)) == Conclude(Judgements(libs, vcs, get, insecureHttp, clock))
  {
    hide Judgements, Conclude, AllVerify, SomeExpired, SomeGrants;
    var r := Conclude(Judgements(libs, vcs, get, insecureHttp, clock));
    var p := Conclude(Judgements(libs, others, get, insecureHttp, clock));
    ConclusionCharacterisation(libs, vcs, get, insecureHttp, clock);
    ConclusionCharacterisation(libs, others, get, insecureHttp, clock);
    SameVerify(libs, vcs, others, get, insecureHttp);
    SomeExpiredIncluded(libs, others, vcs, get, insecureHttp, clock);
    forall id
      ensures SomeGrants(libs, vcs, get, insecureHttp, clock, id) <==> SomeGrants(libs, others, get, insecureHttp, clock, id)
    {
      SomeGrantsIncluded(libs, vcs, others, get, insecureHttp, clock, id);
      SomeGrantsIncluded(libs, others, vcs, get, insecureHttp, clock, id);
    }
    assert p.Ok?;
    assert forall id :: id in r.value <==> id in p.value;
    assert r.value == p.value;
  }

  lemma SameVerify(libs: Libs, vcs: seq<Json>, others: seq<Json>, get: string -> Fetch, insecureHttp: bool)
    requires forall vc :: vc in others ==> vc in vcs
    ensures AllVerify(libs, vcs, get, insecureHttp) ==> AllVerify(libs, others, get, insecureHttp)
  {
    forall i | 0 <= i < |others| && AllVerify(libs, vcs, get, insecureHttp) ensures Verifies(libs, others[i], get, insecureHttp) {
      assert others[i] in vcs;
    }
  }

  lemma SomeExpiredIncluded(
    libs: Libs, vcs: seq<Json>, others: seq<Json>, get: string -> Fetch, insecureHttp: bool, clock: nat -> Seconds)
    requires AllVerify(libs, vcs, get, insecureHttp) && AllVerify(libs, others, get, insecureHttp)
    requires forall vc :: vc in vcs ==> vc in others
    requires forall i, j :: clock(i) == clock(j)
    ensures SomeExpired(libs, vcs, get, insecureHttp, clock) ==> SomeExpired(libs, others, get, insecureHttp, clock)
  {
    if SomeExpired(libs, vcs, get, insecureHttp, clock) {
      var i :| 0 <= i < |vcs| && IsExpired(libs, vcs[i], get, insecureHttp, clock(i + 2));
      assert vcs[i] in others;
      var k :| 0 <= k < |others| && others[k] == vcs[i];
      assert clock(k + 2) == clock(i + 2);
    }
  }

  lemma SomeGrantsIncluded(
    libs: Libs, vcs: seq<Json>, others: seq<Json>, get: string -> Fetch, insecureHttp: bool, clock: nat -> Seconds, id: string)
    requires AllVerify(libs, vcs, get, insecureHttp) && AllVerify(libs, others, get, insecureHttp)
    requires forall vc :: vc in vcs ==> vc in others
    requires forall i, j :: clock(i) == clock(j)
    ensures SomeGrants(libs, vcs, get, insecureHttp, clock, id) ==> SomeGrants(libs, others, get, insecureHttp, clock, id)
  {
    if SomeGrants(libs, vcs, get, insecureHttp, clock, id) {
      var i :| 0 <= i < |vcs| && GrantsId(libs, vcs[i], get, insecureHttp, clock(i + 2), id);
      assert vcs[i] in others;
      var k :| 0 <= k < |others| && others[k] == vcs[i];
      assert clock(k + 2) == clock(i + 2);
    }
  }

  /** If every credential that verifies at all has expired, the presentation is refused. */
  lemma AllExpiredIsRefused(libs: Libs, vcs: seq<Json>, get: string -> Fetch, insecureHttp: bool, clock: nat -> Seconds)
    requires vcs != []
    requires forall i :: 0 <= i < |vcs| && Verifies(libs, vcs[i], get, insecureHttp) ==>
               IsExpired(libs, vcs[i], get, insecureHttp, clock(i + 2))
    ensures Conclude(Judgements(libs, vcs, get, insecureHttp, clock)).Err?
  {
    ConclusionCharacterisation(libs, vcs, get, insecureHttp, clock);
    if AllVerify(libs, vcs, get, insecureHttp) {
      assert IsExpired(libs, vcs[0], get, insecureHttp, clock(0 + 2));
    }
  }

  lemma AuthenticateErrors(libs: Libs, token: string, get: string -> Fetch, insecureHttp: bool)
    ensures
      var r := Authenticate(libs, token, get, insecureHttp);
      r.Err? ==> r.error != AllCredentialsExpired
  {
    hide Base64Url.Decode, ReadDidDocument, FindKey;
    var decoded := DecodeJwsUnverified(libs, token);
    if decoded.Ok? && GetStr(decoded.value.payload, "iss").Some? && GetStr(decoded.value.header, "kid").Some? {
      var doc := ResolveDid(get, GetStr(decoded.value.payload, "iss").value, insecureHttp);
      if doc.Ok? {
        FindKeyErrors(libs, doc.value.verificationMethod, GetStr(decoded.value.header, "kid").value);
      }
    }
  }

  lemma {:induction false} FirstErrorIsOne(judged: seq<Result<Verdict, DcpError>>)
    ensures FirstError(judged).Some? ==> exists i :: 0 <= i < |judged| && judged[i] == Err(FirstError(judged).value)
  {
    if judged != [] && judged[0].Ok? {
      FirstErrorIsOne(judged[1..]);
      if FirstError(judged[1..]).Some? {
        var i :| 0 <= i < |judged[1..]| && judged[1..][i] == Err(FirstError(judged[1..]).value);
        assert judged[i + 1] == judged[1..][i];
      }
    }
  }

  /**
   The rule is wider than its message: "all presented credentials are expired" is the answer exactly when all
   verify, one has expired and none grants anything - an unexpired one of another type does not help.
   */
  lemma RefusalIsWiderThanItsMessage(libs: Libs, vcs: seq<Json>, get: string -> Fetch, insecureHttp: bool, clock: nat -> Seconds)
    ensures
      Conclude(Judgements(libs, vcs, get, insecureHttp, clock)) == Err(AllCredentialsExpired)
      <==>
      && AllVerify(libs, vcs, get, insecureHttp)
      && SomeExpired(libs, vcs, get, insecureHttp, clock)
      && forall id :: !SomeGrants(libs, vcs, get, insecureHttp, clock, id)
  {
    hide Authenticate, SomeGrants, SomeExpired, AllVerify, VerdictOn;
    var judged := Judgements(libs, vcs, get, insecureHttp, clock);
    ConclusionCharacterisation(libs, vcs, get, insecureHttp, clock);
    AllVerifyMeans(libs, vcs, get, insecureHttp, clock);
    FirstErrorIsOne(judged);
    if FirstError(judged).Some? {
      var i :| 0 <= i < |judged| && judged[i] == Err(FirstError(judged).value);
      if vcs[i].Str? {
        AuthenticateErrors(libs, vcs[i].s, get, insecureHttp);
      }
    }
  }
}
