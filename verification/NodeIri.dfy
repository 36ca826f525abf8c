/** The graph IRI of a node: its id percent-encoded (section 2.1 of RFC 3986) behind a fixed prefix. */
module NodeIri {
  import opened Bytes
  import CatalogCore

  const NODE_NS := "https://federated-catalog-rs.internal/nodes/"

  /** The bytes `urlencoding::encode` leaves alone: letters, digits, `-`, `.`, `_` and `~`. */
  predicate Unreserved(b: byte) {
    || 'A' as int <= b <= 'Z' as int
    || 'a' as int <= b <= 'z' as int
    || '0' as int <= b <= '9' as int
    || b == '-' as int || b == '.' as int || b == '_' as int || b == '~' as int
  }

  function HexDigit(n: int): char
    requires 0 <= n < 16
  {
    if n < 10 then ('0' as int + n) as char else ('A' as int + n - 10) as char
  }

  function PercentByte(b: byte): string {
    if Unreserved(b) then [b as char] else ['%', HexDigit(b / 16), HexDigit(b % 16)]
  }

  function PercentEncode(bytes: seq<byte>): string {
    if bytes == [] then [] else PercentByte(bytes[0]) + PercentEncode(bytes[1..])
  }

  function GraphIri(node: CatalogCore.NodeId): string {
    NODE_NS + PercentEncode(Utf8(node))
  }

  lemma PercentByteUnique(a: byte, b: byte, x: string, y: string)
    requires PercentByte(a) + x == PercentByte(b) + y
    ensures a == b && x == y
  {
    var p, q := PercentByte(a), PercentByte(b);
    var s, t := p + x, q + y;
    assert s[0] == p[0] && t[0] == q[0];
    assert |p| == |q|;
    SplitAt(p, x, q, y);
  }

  lemma {:induction false} PercentEncodeInjective(a: seq<byte>, b: seq<byte>)
    requires PercentEncode(a) == PercentEncode(b)
    ensures a == b
  {
    if a != [] && b != [] {
      PercentByteUnique(a[0], b[0], PercentEncode(a[1..]), PercentEncode(b[1..]));
      PercentEncodeInjective(a[1..], b[1..]);
      assert a == [a[0]] + a[1..] && b == [b[0]] + b[1..];
    }
  }

  /** Distinct nodes never share a graph, whatever characters their ids contain. */
  lemma GraphIriInjective(a: CatalogCore.NodeId, b: CatalogCore.NodeId)
    requires GraphIri(a) == GraphIri(b)
    ensures a == b
  {
    assert GraphIri(a)[|NODE_NS|..] == PercentEncode(Utf8(a));
    assert GraphIri(b)[|NODE_NS|..] == PercentEncode(Utf8(b));
    PercentEncodeInjective(Utf8(a), Utf8(b));
    Utf8Injective(a, b);
  }

  function HexValue(c: char): int {
    if '0' <= c <= '9' then c as int - '0' as int else if 'A' <= c <= 'F' then c as int - 'A' as int + 10 else -1
  }

  /** What the text stands for by section 2.1 of RFC 3986, with upper-case digits as section 2.1 wants them. */
  ghost predicate PercentDecodes(text: string, bytes: seq<int>)
    decreases |text|
  {
    if text == [] then bytes == []
    else if text[0] != '%' then bytes != [] && bytes[0] == text[0] as int && PercentDecodes(text[1..], bytes[1..])
    else
      && |text| >= 3 && HexValue(text[1]) >= 0 && HexValue(text[2]) >= 0
      && bytes != [] && bytes[0] == HexValue(text[1]) * 16 + HexValue(text[2])
      && PercentDecodes(text[3..], bytes[1..])
  }

  /** The encoding stands for the bytes it encodes. */
  lemma {:induction false} PercentEncodeDecodes(bytes: seq<byte>)
    ensures PercentDecodes(PercentEncode(bytes), bytes)
  {
    hide PercentByte, HexValue;
    if bytes != [] {
      PercentEncodeDecodes(bytes[1..]);
      var first, rest := PercentByte(bytes[0]), PercentEncode(bytes[1..]);
      PercentByteIs(bytes[0]);
      assert (first + rest)[|first|..] == rest;
      assert (first + rest)[0] == first[0];
      if |first| == 3 {
        assert (first + rest)[1] == first[1] && (first + rest)[2] == first[2];
      }
    }
  }

  /** The graph of a node is named by the encoded id behind a fixed prefix. */
  lemma GraphIriIs(node: CatalogCore.NodeId) returns (encoded: string)
    ensures GraphIri(node) == "https://federated-catalog-rs.internal/nodes/" + encoded && PercentDecodes(encoded, Utf8(node))
  {
    encoded := PercentEncode(Utf8(node));
    PercentEncodeDecodes(Utf8(node));
  }

  /** Letters, digits, `-`, `.`, `_` and `~` stay; every other byte becomes `%` and its two digits. */
  lemma PercentByteIs(b: byte)
    ensures PercentByte(b) == [b as char] <==>
            || 0x41 <= b <= 0x5A || 0x61 <= b <= 0x7A || 0x30 <= b <= 0x39
            || b == 0x2D || b == 0x2E || b == 0x5F || b == 0x7E
    ensures PercentByte(b) == [b as char] ==> PercentByte(b)[0] != '%'
    ensures
      var s := PercentByte(b);
      s == [b as char] || (|s| == 3 && s[0] == '%' && HexValue(s[1]) == b / 16 && HexValue(s[2]) == b % 16)
  {
  }
}
