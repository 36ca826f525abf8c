/** JSON values as `serde_json::Value` holds them: an object has at most one member per key. */
module Json {
  import opened Wrappers

  const U64_LIMIT := 0x1_0000_0000_0000_0000

  /** The integers a number can hold: those of `i64` and `u64`. */
  type JsonInt = n: int | -0x8000_0000_0000_0000 <= n < U64_LIMIT

  predicate IsDigit(c: char) {
    '0' <= c <= '9'
  }

  function SkipDigits(s: string): string {
    if s != [] && IsDigit(s[0]) then SkipDigits(s[1..]) else s
  }

  /** `e` or `E`, an optional sign, digits. */
  predicate IsExponent(s: string) {
    && |s| >= 2 && (s[0] == 'e' || s[0] == 'E')
    && var digits := if s[1] == '+' || s[1] == '-' then s[2..] else s[1..];
       digits != [] && SkipDigits(digits) == []
  }

  predicate IsFractionOrExponent(s: string) {
    if |s| >= 2 && s[0] == '.' && IsDigit(s[1]) then SkipDigits(s[1..]) == [] || IsExponent(SkipDigits(s[1..]))
    else IsExponent(s)
  }

  /** A number with a fraction or an exponent (section 6 of RFC 8259). */
  predicate IsFloatLiteral(s: string) {
    var unsigned := if s != [] && s[0] == '-' then s[1..] else s;
    && unsigned != [] && IsDigit(unsigned[0])
    && IsFractionOrExponent(if unsigned[0] == '0' then unsigned[1..] else SkipDigits(unsigned))
  }

  type FloatLiteral = s: string | IsFloatLiteral(s) witness "0.5"

  /** A number is an integer or a literal with a fraction or an exponent, kept as its text. */
  datatype Json =
    | Null
    | Bool(b: bool)
    | Int(n: JsonInt)
    | Float(literal: FloatLiteral)
    | Str(s: string)
    | Arr(items: seq<Json>)
    | Obj(members: map<string, Json>)

  /** `Value::get`: a member of an object, nothing for any other kind of value. */
  function Get(v: Json, key: string): Option<Json> {
    if v.Obj? && key in v.members then Some(v.members[key]) else None
  }

  function AsStr(v: Option<Json>): Option<string> {
    match v
    case Some(Str(s)) => Some(s)
    case _ => None
  }

  function AsArray(v: Option<Json>): Option<seq<Json>> {
    match v
    case Some(Arr(items)) => Some(items)
    case _ => None
  }

  function AsU64(v: Option<Json>): Option<nat> {
    match v
    case Some(Int(n)) => if 0 <= n then Some(n) else None
    case _ => None
  }

  function GetStr(v: Json, key: string): Option<string> {
    AsStr(Get(v, key))
  }

  /** The array under `key`, or nothing to iterate over. */
  function Entries(v: Json, key: string): seq<Json> {
    AsArray(Get(v, key)).GetOr([])
  }

  /** `@id`, or `id` when `@id` is absent. A present `@id` that is not a string hides `id`. */
  function IdOf(v: Json): Option<string> {
    AsStr(if Get(v, "@id").Some? then Get(v, "@id") else Get(v, "id"))
  }

  /** The member is this string. */
  ghost predicate TextAt(v: Json, key: string, s: string) {
    v.Obj? && key in v.members && v.members[key] == Str(s)
  }

  function StringArray(items: seq<string>): Json {
    Arr(seq(|items|, i requires 0 <= i < |items| => Str(items[i])))
  }
}
