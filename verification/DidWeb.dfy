/** did:web identifiers: deriving a holder's and resolving any (`crates/dcp-core/src/lib.rs`). */
module DidWeb {
  import opened Wrappers
  import opened Strings
  import opened Bytes
  import Jws

  // ---------------------------------------------------------------- DID to URL

  function DecodeColons(segment: string): string {
    Replace(Replace(segment, "%3A", ":"), "%3a", ":")
  }

  function Scheme(insecureHttp: bool): string {
    if insecureHttp then "http" else "https"
  }

  function DecodeAll(segments: seq<string>): seq<string> {
    if segments == [] then [] else [DecodeColons(segments[0])] + DecodeAll(segments[1..])
  }

  function DidWebToUrl(did: string, insecureHttp: bool): Result<string, Jws.DcpError> {
    match StripPrefix(did, "did:web:")
    case None => Err(Jws.NotDidWeb)
    case Some(rest) =>
      var segments := Split(rest, ':');
      var host := DecodeColons(segments[0]);
      var path := DecodeAll(segments[1..]);
      if path == [] then Ok(Scheme(insecureHttp) + "://" + host + "/.well-known/did.json")
      else Ok(Scheme(insecureHttp) + "://" + host + "/" + Join(path, "/") + "/did.json")
  }

  function HolderDid(ownDidHost: string): string {
    "did:web:" + Replace(ownDidHost, ":", "%3A") + ":dsp:holder"
  }

  function HolderDidUrl(ownDidHost: string, insecureHttp: bool): string {
    (if insecureHttp then "http://" else "https://") + ownDidHost + "/dsp/holder/did.json"
  }

  /** Every did:web identifier resolves by its colon-separated parts: host, then path or well-known place. */
  lemma DidWebResolvesTo(parts: seq<string>, insecureHttp: bool)
    requires parts != [] && forall i :: 0 <= i < |parts| ==> ':' !in parts[i]
    ensures DidWebToUrl("did:web:" + Join(parts, ":"), insecureHttp)
         == var base := (if insecureHttp then "http://" else "https://") + DecodeColons(parts[0]);
            Ok(if |parts| == 1 then base + "/.well-known/did.json"
               else base + "/" + Join(DecodeAll(parts[1..]), "/") + "/did.json")
  {
    hide DecodeColons, Scheme, Split, StripPrefix, Join, DecodeAll;
    SchemeIs(insecureHttp);
    StripOwnPrefix("did:web:", Join(parts, ":"));
    SplitJoin(parts, ':');
    DecodedLength(parts[1..]);
  }

  lemma SchemeIs(insecureHttp: bool)
    ensures Scheme(insecureHttp) + "://" == if insecureHttp then "http://" else "https://"
  {
  }

  lemma {:induction false} DecodedLength(segments: seq<string>)
    ensures |DecodeAll(segments)| == |segments|
    ensures forall i :: 0 <= i < |segments| ==> DecodeAll(segments)[i] == DecodeColons(segments[i])
  {
    if segments != [] {
      DecodedLength(segments[1..]);
      assert forall i :: 0 < i < |segments| ==> segments[i] == segments[1..][i - 1];
    }
  }

  predicate LowerEscapeAtFront(s: string) {
    |s| >= 3 && s[0] == '%' && s[1] == '3' && s[2] == 'a'
  }

  lemma LowerDecodedHead(s: string)
    requires s != []
    ensures LowerEscapeAtFront(s) ==> Replace(s, "%3a", ":") == ":" + Replace(s[3..], "%3a", ":")
    ensures !LowerEscapeAtFront(s) ==> Replace(s, "%3a", ":") == [s[0]] + Replace(s[1..], "%3a", ":")
  {
    if |s| >= 3 {
      assert s[..3] == [s[0], s[1], s[2]];
    } else {
      assert |s[1..]| < 3;
      assert s == [s[0]] + s[1..];
    }
  }

  /** A lower-case escape at the front passes the first replacement; nothing else becomes one. */
  lemma LowerEscapeKept(s: string)
    requires s != [] && !EscapeAtFront(s)
    ensures LowerEscapeAtFront(Replace(s, "%3A", ":")) <==> LowerEscapeAtFront(s)
    ensures LowerEscapeAtFront(s) ==> Replace(s, "%3A", ":")[3..] == Replace(s[3..], "%3A", ":")
  {
    hide Replace;
    DecodedHead(s);
    var tail := s[1..];
    if tail != [] {
      DecodedHead(tail);
      if !EscapeAtFront(tail) {
        var last := tail[1..];
        assert last == s[2..];
        if last != [] {
          DecodedHead(last);
          assert last[1..] == s[3..];
        } else {
          assert Replace(last, "%3A", ":") == [] by { NothingToReplace(); }
        }
      }
    } else {
      assert Replace(tail, "%3A", ":") == [] by { NothingToReplace(); }
    }
  }

  lemma NothingToReplace()
    ensures Replace([], "%3A", ":") == [] && Replace([], "%3a", ":") == []
  {
  }

  /** The two replacements amount to one pass from left to right that turns either escape into a colon. */
  lemma DecodesInOnePass(s: string)
    ensures s == [] ==> DecodeColons(s) == []
    ensures s != [] ==>
      DecodeColons(s) ==
      if |s| >= 3 && (s[..3] == "%3A" || s[..3] == "%3a") then ":" + DecodeColons(s[3..]) else [s[0]] + DecodeColons(s[1..])
  {
    hide Replace;
    NothingToReplace();
    if s != [] {
      DecodedHead(s);
      LowerDecodedHead(Replace(s, "%3A", ":"));
      if EscapeAtFront(s) {
        assert s[..3] == "%3A";
        assert Replace(s, "%3A", ":")[1..] == Replace(s[3..], "%3A", ":");
      } else {
        LowerEscapeKept(s);
        assert LowerEscapeAtFront(s) ==> s[..3] == "%3a";
        assert Replace(s, "%3A", ":")[1..] == Replace(s[1..], "%3A", ":");
      }
    }
  }

  /** What encoding does to a host, character by character. */
  lemma EncodedHead(s: string)
    requires s != []
    ensures Replace(s, ":", "%3A") == (if s[0] == ':' then "%3A" else [s[0]]) + Replace(s[1..], ":", "%3A")
  {
    assert s[..1] == [s[0]];
  }

  lemma {:induction false} EncodedHostHasNoColon(host: string)
    ensures ':' !in Replace(host, ":", "%3A")
  {
    if host != [] {
      EncodedHead(host);
      EncodedHostHasNoColon(host[1..]);
    }
  }

  predicate EscapeAtFront(s: string) {
    |s| >= 3 && s[0] == '%' && s[1] == '3' && s[2] == 'A'
  }

  lemma DecodedHead(s: string)
    requires s != []
    ensures EscapeAtFront(s) ==> Replace(s, "%3A", ":") == ":" + Replace(s[3..], "%3A", ":")
    ensures !EscapeAtFront(s) ==> Replace(s, "%3A", ":") == [s[0]] + Replace(s[1..], "%3A", ":")
  {
    if |s| >= 3 {
      assert s[..3] == [s[0], s[1], s[2]];
    } else {
      assert |s[1..]| < 3;
      assert s == [s[0]] + s[1..];
    }
  }

  /** Encoding colons neither creates nor destroys an escape at the front of a host. */
  lemma SameEscapeAtFront(host: string)
    requires host != [] && host[0] != ':'
    ensures EscapeAtFront(Replace(host, ":", "%3A")) <==> EscapeAtFront(host)
    ensures EscapeAtFront(host) ==> Replace(host, ":", "%3A")[3..] == Replace(host[3..], ":", "%3A")
  {
    EncodedHead(host);
    var tail := host[1..];
    if tail != [] {
      EncodedHead(tail);
      if tail[0] != ':' {
        var last := tail[1..];
        assert last == host[2..];
        if last != [] {
          EncodedHead(last);
          assert last[1..] == host[3..];
        }
      }
    }
  }

  /** Decoding an encoded host is the same as decoding the host: only literal escapes are at stake. */
  lemma {:induction false} EncodingIsUndone(host: string)
    ensures Replace(Replace(host, ":", "%3A"), "%3A", ":") == Replace(host, "%3A", ":")
  {
    if host != [] {
      var encoded := Replace(host, ":", "%3A");
      EncodedHead(host);
      DecodedHead(encoded);
      DecodedHead(host);
      if host[0] == ':' {
        assert encoded[3..] == Replace(host[1..], ":", "%3A");
        EncodingIsUndone(host[1..]);
      } else {
        SameEscapeAtFront(host);
        assert encoded[1..] == Replace(host[1..], ":", "%3A");
        EncodingIsUndone(if EscapeAtFront(host) then host[3..] else host[1..]);
      }
    }
  }

  /** Replacing by something shorter changes exactly the strings the pattern occurs in. */
  lemma {:induction false} ReplaceShortens(s: string, pattern: string, with: string)
    requires |with| < |pattern|
    ensures |Replace(s, pattern, with)| <= |s|
    ensures Occurs(s, pattern) ==> |Replace(s, pattern, with)| < |s|
    ensures !Occurs(s, pattern) ==> Replace(s, pattern, with) == s
  {
    if |s| >= |pattern| {
      if s[..|pattern|] == pattern {
        ReplaceShortens(s[|pattern|..], pattern, with);
      } else {
        ReplaceShortens(s[1..], pattern, with);
        assert s == [s[0]] + s[1..];
      }
    }
  }

  /** The hosts that survive: those without a literal `%3A` or `%3a`. */
  predicate PlainHost(host: string) {
    !Occurs(host, "%3A") && !Occurs(host, "%3a")
  }

  lemma DecodingKeepsPlainHosts(host: string)
    ensures DecodeColons(host) == host <==> PlainHost(host)
  {
    ReplaceShortens(host, "%3A", ":");
    ReplaceShortens(Replace(host, "%3A", ":"), "%3a", ":");
  }

  lemma HolderDidSegments(encoded: string)
    requires ':' !in encoded
    ensures Split(encoded + ":dsp:holder", ':') == [encoded, "dsp", "holder"]
  {
    assert encoded + ":dsp:holder" == encoded + [':'] + ("dsp" + [':'] + "holder");
    SplitThree(encoded, "dsp", "holder", ':');
  }

  lemma UrlOfThreeSegments(did: string, a: string, insecureHttp: bool)
    requires StripPrefix(did, "did:web:").Some?
    requires Split(StripPrefix(did, "did:web:").value, ':') == [a, "dsp", "holder"]
    ensures DidWebToUrl(did, insecureHttp) == Ok(Scheme(insecureHttp) + "://" + DecodeColons(a) + "/dsp/holder/did.json")
  {
    hide DecodeColons, Scheme, Split, StripPrefix, Join, DecodeAll;
    PathDecodes();
    assert [a, "dsp", "holder"][1..] == ["dsp", "holder"];
    var prefix := Scheme(insecureHttp) + "://" + DecodeColons(a);
    assert prefix + "/" + "dsp/holder" + "/did.json" == prefix + "/dsp/holder/did.json";
  }

  lemma HolderDidResolvesTo(host: string, insecureHttp: bool)
    ensures DidWebToUrl(HolderDid(host), insecureHttp)
         == Ok((if insecureHttp then "http://" else "https://") + DecodeColons(host) + "/dsp/holder/did.json")
  {
    var encoded := Replace(host, ":", "%3A");
    assert HolderDid(host) == "did:web:" + (encoded + ":dsp:holder");
    StripOwnPrefix("did:web:", encoded + ":dsp:holder");
    EncodedHostHasNoColon(host);
    HolderDidSegments(encoded);
    UrlOfThreeSegments(HolderDid(host), encoded, insecureHttp);
    SchemeIs(insecureHttp);
    EncodingIsUndone(host);
  }

  lemma {:induction false} OccursNeedsFirst(s: string, pattern: string)
    requires pattern != [] && pattern[0] !in s
    ensures !Occurs(s, pattern)
  {
    if s != [] {
      OccursNeedsFirst(s[1..], pattern);
    }
  }

  lemma NoEscapes(host: string)
    requires '%' !in host
    ensures PlainHost(host)
  {
    OccursNeedsFirst(host, "%3A");
    OccursNeedsFirst(host, "%3a");
  }

  lemma PathDecodes()
    ensures DecodeAll(["dsp", "holder"]) == ["dsp", "holder"]
    ensures Join(["dsp", "holder"], "/") == "dsp/holder"
  {
    hide DecodeColons, PlainHost;
    NoEscapes("dsp");
    NoEscapes("holder");
    DecodingKeepsPlainHosts("dsp");
    DecodingKeepsPlainHosts("holder");
    assert ["dsp", "holder"][1..] == ["holder"];
    assert ["holder"][1..] == [];
  }

  /**
   Deriving a holder's DID and resolving it are inverse exactly for the plain hosts: only then is the
   document looked up at the route that serves it.
   */
  lemma HolderDidRoundTrip(host: string, insecureHttp: bool)
    ensures DidWebToUrl(HolderDid(host), insecureHttp) == Ok(HolderDidUrl(host, insecureHttp)) <==> PlainHost(host)
  {
    hide DecodeColons, PlainHost, DidWebToUrl, HolderDid, Scheme;
    HolderDidResolvesTo(host, insecureHttp);
    DecodingKeepsPlainHosts(host);
    MiddleIsDetermined(if insecureHttp then "http://" else "https://", DecodeColons(host), host, "/dsp/holder/did.json");
  }

  lemma MiddleIsDetermined(prefix: string, a: string, b: string, suffix: string)
    ensures prefix + a + suffix == prefix + b + suffix <==> a == b
  {
    if prefix + a + suffix == prefix + b + suffix {
      assert (prefix + a + suffix)[|prefix|..] == a + suffix;
      assert (prefix + b + suffix)[|prefix|..] == b + suffix;
      SplitAt(a, suffix, b, suffix);
    }
  }
}
