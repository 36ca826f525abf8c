/** base64url without padding (section 5 of RFC 4648), decoding strictly as `URL_SAFE_NO_PAD` does. */
module Base64Url {
  import opened Wrappers
  import opened Bytes

  type Sextet = n: int | 0 <= n < 64

  function CharOf(n: Sextet): char {
    if n < 26 then ('A' as int + n) as char
    else if n < 52 then ('a' as int + n - 26) as char
    else if n < 62 then ('0' as int + n - 52) as char
    else if n == 62 then '-'
    else '_'
  }

  function SextetOf(c: char): Option<Sextet> {
    if 'A' <= c <= 'Z' then Some(c as int - 'A' as int)
    else if 'a' <= c <= 'z' then Some(c as int - 'a' as int + 26)
    else if '0' <= c <= '9' then Some(c as int - '0' as int + 52)
    else if c == '-' then Some(62)
    else if c == '_' then Some(63)
    else None
  }

  predicate InAlphabet(c: char) {
    SextetOf(c).Some?
  }

  lemma CharsAndSextets(n: Sextet, c: char)
    ensures SextetOf(CharOf(n)) == Some(n)
    ensures SextetOf(c).Some? ==> CharOf(SextetOf(c).value) == c
  {
  }

  // the four sextets of three bytes, and back
  function Sextet0(x: byte): Sextet { x / 4 }
  function Sextet1(x: byte, y: byte): Sextet { x % 4 * 16 + y / 16 }
  function Sextet2(y: byte, z: byte): Sextet { y % 16 * 4 + z / 64 }
  function Sextet3(z: byte): Sextet { z % 64 }

  function Byte0(a: Sextet, b: Sextet): byte { a * 4 + b / 16 }
  function Byte1(b: Sextet, c: Sextet): byte { b % 16 * 16 + c / 4 }
  function Byte2(c: Sextet, d: Sextet): byte { c % 4 * 64 + d }

  lemma BytesOfSextets(x: byte, y: byte, z: byte)
    ensures Byte0(Sextet0(x), Sextet1(x, y)) == x
    ensures Byte1(Sextet1(x, y), Sextet2(y, z)) == y
    ensures Byte2(Sextet2(y, z), Sextet3(z)) == z
  {
  }

  lemma SextetsOfBytes(a: Sextet, b: Sextet, c: Sextet, d: Sextet)
    ensures Sextet0(Byte0(a, b)) == a
    ensures Sextet1(Byte0(a, b), Byte1(b, c)) == b
    ensures Sextet2(Byte1(b, c), Byte2(c, d)) == c
    ensures Sextet3(Byte2(c, d)) == d
  {
  }

  /** The values of the symbols, nothing if one is outside the alphabet. */
  function Sextets(s: string): Option<seq<Sextet>> {
    if s == [] then Some([])
    else
      match (SextetOf(s[0]), Sextets(s[1..]))
      case (Some(n), Some(rest)) => Some([n] + rest)
      case _ => None
  }

  /** Nothing for an impossible length or bits left over at the end. */
  function DecodeSextets(v: seq<Sextet>): Option<seq<byte>> {
    if v == [] then Some([])
    else if |v| == 1 then None
    else if |v| == 2 then
      if v[1] % 16 != 0 then None else Some([Byte0(v[0], v[1])])
    else if |v| == 3 then
      if v[2] % 4 != 0 then None else Some([Byte0(v[0], v[1]), Byte1(v[1], v[2])])
    else
      match DecodeSextets(v[4..])
      case Some(rest) => Some([Byte0(v[0], v[1]), Byte1(v[1], v[2]), Byte2(v[2], v[3])] + rest)
      case None => None
  }

  function Decode(s: string): Option<seq<byte>> {
    match Sextets(s)
    case Some(v) => DecodeSextets(v)
    case None => None
  }

  function Chars(v: seq<Sextet>): string {
    seq(|v|, i requires 0 <= i < |v| => CharOf(v[i]))
  }

  /** A zero byte pads with zero bits, and zero bits pad to a zero byte. */
  lemma Padding(x: byte, n: Sextet)
    ensures Sextet1(x, 0) % 16 == 0 && Sextet2(x, 0) % 4 == 0
    ensures n % 16 == 0 ==> Byte1(n, 0) == 0
    ensures n % 4 == 0 ==> Byte2(n, 0) == 0
  {
  }

  function EncodeSextets(bytes: seq<byte>): seq<Sextet> {
    if bytes == [] then []
    else if |bytes| == 1 then [Sextet0(bytes[0]), Sextet1(bytes[0], 0)]
    else if |bytes| == 2 then [Sextet0(bytes[0]), Sextet1(bytes[0], bytes[1]), Sextet2(bytes[1], 0)]
    else
      [Sextet0(bytes[0]), Sextet1(bytes[0], bytes[1]), Sextet2(bytes[1], bytes[2]), Sextet3(bytes[2])]
      + EncodeSextets(bytes[3..])
  }

  function Encode(bytes: seq<byte>): string {
    Chars(EncodeSextets(bytes))
  }

  lemma {:induction false} SextetsOfChars(v: seq<Sextet>)
    ensures Sextets(Chars(v)) == Some(v)
  {
    if v != [] {
      assert Chars(v)[1..] == Chars(v[1..]);
      SextetsOfChars(v[1..]);
      CharsAndSextets(v[0], 'A');
      assert Chars(v)[0] == CharOf(v[0]);
      assert v == [v[0]] + v[1..];
    }
  }

  lemma {:induction false} CharsOfSextets(s: string)
    requires Sextets(s).Some?
    ensures Chars(Sextets(s).value) == s
  {
    if s != [] {
      CharsOfSextets(s[1..]);
      CharsAndSextets(0, s[0]);
    }
  }

  lemma {:induction false} DecodeEncodeSextets(bytes: seq<byte>)
    ensures DecodeSextets(EncodeSextets(bytes)) == Some(bytes)
  {
    hide Sextet0, Sextet1, Sextet2, Sextet3, Byte0, Byte1, Byte2;
    if |bytes| >= 3 {
      DecodeEncodeSextets(bytes[3..]);
      assert EncodeSextets(bytes)[4..] == EncodeSextets(bytes[3..]);
      BytesOfSextets(bytes[0], bytes[1], bytes[2]);
      assert bytes == [bytes[0], bytes[1], bytes[2]] + bytes[3..];
    } else if |bytes| == 2 {
      BytesOfSextets(bytes[0], bytes[1], 0);
      Padding(bytes[1], 0);
      assert bytes == [bytes[0], bytes[1]];
    } else if |bytes| == 1 {
      BytesOfSextets(bytes[0], 0, 0);
      Padding(bytes[0], 0);
      assert bytes == [bytes[0]];
    }
  }

  lemma {:induction false} EncodeDecodeSextets(v: seq<Sextet>)
    requires DecodeSextets(v).Some?
    ensures EncodeSextets(DecodeSextets(v).value) == v
  {
    hide Sextet0, Sextet1, Sextet2, Sextet3, Byte0, Byte1, Byte2;
    if |v| >= 4 {
      EncodeDecodeSextets(v[4..]);
      SextetsOfBytes(v[0], v[1], v[2], v[3]);
      assert DecodeSextets(v).value[3..] == DecodeSextets(v[4..]).value;
      assert v == [v[0], v[1], v[2], v[3]] + v[4..];
    } else if |v| == 3 {
      SextetsOfBytes(v[0], v[1], v[2], 0);
      Padding(0, v[2]);
      assert v == [v[0], v[1], v[2]];
    } else if |v| == 2 {
      SextetsOfBytes(v[0], v[1], 0, 0);
      Padding(0, v[1]);
      assert v == [v[0], v[1]];
    }
  }

  /** Everything encoded decodes to what it was. */
  lemma DecodeEncode(bytes: seq<byte>)
    ensures Decode(Encode(bytes)) == Some(bytes)
  {
    SextetsOfChars(EncodeSextets(bytes));
    DecodeEncodeSextets(bytes);
  }

  /** Everything that decodes is the encoding of the result: no two texts decode to the same bytes. */
  lemma EncodeDecode(s: string)
    requires Decode(s).Some?
    ensures Encode(Decode(s).value) == s
  {
    EncodeDecodeSextets(Sextets(s).value);
    CharsOfSextets(s);
  }

  lemma EncodeUsesAlphabet(bytes: seq<byte>)
    ensures forall i :: 0 <= i < |Encode(bytes)| ==> InAlphabet(Encode(bytes)[i])
  {
    forall i | 0 <= i < |Encode(bytes)| ensures InAlphabet(Encode(bytes)[i]) {
      CharsAndSextets(EncodeSextets(bytes)[i], 'A');
    }
  }

  /** The alphabet of table 2 in section 5: `A` to `Z`, `a` to `z`, `0` to `9`, `-` and `_` count up from 0. */
  lemma AlphabetIs(n: Sextet)
    ensures CharOf(0) == 'A' && CharOf(26) == 'a' && CharOf(52) == '0' && CharOf(62) == '-' && CharOf(63) == '_'
    ensures n < 63 && n !in {25, 51, 61, 62} ==> CharOf(n + 1) as int == CharOf(n) as int + 1
  {
  }

  /** Four values are the 24 bits of three bytes, most significant first. */
  ghost predicate SameBits(a: Sextet, b: Sextet, c: Sextet, d: Sextet, x: byte, y: byte, z: byte) {
    a as int * 262144 + b as int * 4096 + c as int * 64 + d as int == x as int * 65536 + y as int * 256 + z as int
  }

  lemma SextetsHaveSameBits(x: byte, y: byte, z: byte)
    ensures SameBits(Sextet0(x), Sextet1(x, y), Sextet2(y, z), Sextet3(z), x, y, z)
  {
  }

  /** Three bytes become the four symbols of their 24 bits; the rest follows. */
  lemma EncodesInGroups(x: byte, y: byte, z: byte, rest: seq<byte>)
    ensures exists a: Sextet, b: Sextet, c: Sextet, d: Sextet ::
      && SameBits(a, b, c, d, x, y, z)
      && Encode([x, y, z] + rest) == [CharOf(a), CharOf(b), CharOf(c), CharOf(d)] + Encode(rest)
  {
    hide Sextet0, Sextet1, Sextet2, Sextet3, CharOf, SameBits;
    assert ([x, y, z] + rest)[3..] == rest;
    SextetsHaveSameBits(x, y, z);
    var a, b, c, d := Sextet0(x), Sextet1(x, y), Sextet2(y, z), Sextet3(z);
    assert EncodeSextets([x, y, z] + rest) == [a, b, c, d] + EncodeSextets(rest);
    assert Chars([a, b, c, d] + EncodeSextets(rest)) == [CharOf(a), CharOf(b), CharOf(c), CharOf(d)] + Chars(EncodeSextets(rest));
  }

  /** One or two bytes left over take two or three symbols, as if zero bytes followed. */
  lemma EncodesLeftOver(x: byte, y: byte)
    ensures Encode([]) == ""
    ensures exists a: Sextet, b: Sextet :: SameBits(a, b, 0, 0, x, 0, 0) && Encode([x]) == [CharOf(a), CharOf(b)]
    ensures exists a: Sextet, b: Sextet, c: Sextet ::
              SameBits(a, b, c, 0, x, y, 0) && Encode([x, y]) == [CharOf(a), CharOf(b), CharOf(c)]
  {
    hide Sextet0, Sextet1, Sextet2, Sextet3, CharOf, SameBits;
    SextetsHaveSameBits(x, 0, 0);
    SextetsHaveSameBits(x, y, 0);
    ZeroBytes();
    assert Encode([x]) == [CharOf(Sextet0(x)), CharOf(Sextet1(x, 0))];
    assert Encode([x, y]) == [CharOf(Sextet0(x)), CharOf(Sextet1(x, y)), CharOf(Sextet2(y, 0))];
  }

  lemma ZeroBytes()
    ensures Sextet2(0, 0) == 0 && Sextet3(0) == 0
  {
  }
}
