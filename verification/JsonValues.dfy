/** JSON values as Ruby sees them after decoding a jsonb column. */
module JsonValues {
  /** A key of a JSON object: one the rule model reads, or any other name. */
  datatype Key =
    | OperatorKey
    | ConditionsKey
    | SignalTypeKey
    | ProximityKmKey
    | CountThresholdKey
    | TimeWindowMinutesKey
    | MagnitudeMinKey
    | OtherKey(name: string)

  datatype Json =
    | JNull
    | JBool(b: bool)
    | JInt(n: int)
    | JFloat(x: real)
    | JString(s: string)
    | JArray(elems: seq<Json>)
    | JObject(fields: map<Key, Json>)

  /** The characters of Ruby's [[:space:]]. */
  predicate IsSpace(c: char) {
    var n := c as int;
    || 0x09 <= n <= 0x0D || n == 0x20 || n == 0x85 || n == 0xA0 || n == 0x1680
    || 0x2000 <= n <= 0x200A || n == 0x2028 || n == 0x2029 || n == 0x202F || n == 0x205F || n == 0x3000
  }

  /** The 25 space characters of Unicode: six in ASCII, eleven widths, and eight more. */
  lemma SpaceCharacters(c: char)
    ensures IsSpace(c) <==>
            || c in {' ', '\t', '\n', '\U{0B}', '\U{0C}', '\r'}
            || c in {'\U{2000}', '\U{2001}', '\U{2002}', '\U{2003}', '\U{2004}', '\U{2005}', '\U{2006}', '\U{2007}',
                     '\U{2008}', '\U{2009}', '\U{200A}'}
            || c in {'\U{85}', '\U{A0}', '\U{1680}', '\U{2028}', '\U{2029}', '\U{202F}', '\U{205F}', '\U{3000}'}
  {
  }

  /** `present?`: not nil, not false, not empty, not all whitespace. */
  predicate Present(j: Json) {
    match j
    case JNull => false
    case JBool(b) => b
    case JInt(_) => true
    case JFloat(_) => true
    case JString(s) => exists c <- s :: !IsSpace(c)
    case JArray(elems) => elems != []
    case JObject(fields) => fields != map[]
  }

  /** `hash[key]`, nil when the key is missing. */
  function Get(j: Json, key: Key): Json
    requires j.JObject?
  {
    if key in j.fields then j.fields[key] else JNull
  }

  predicate Truthy(j: Json) {
    !j.JNull? && j != JBool(false)
  }

  predicate NonNegativeNumber(j: Json) {
    (j.JInt? && j.n >= 0) || (j.JFloat? && j.x >= 0.0)
  }

  predicate PositiveInteger(j: Json) {
    j.JInt? && j.n >= 1
  }

  predicate OneOf(j: Json, words: seq<string>) {
    j.JString? && j.s in words
  }
}
