/** Values `JSON.parse` produces (the JSON texts of section 2 of RFC 8259),
    with the JavaScript truthiness the page tests them by. Numbers keep
    only whether they are zero: that is all the page can observe of them. */
module Json {
  import opened Wrappers

  datatype Json =
    | JNull
    | JBool(b: bool)
    | JNumber(nonZero: bool)
    | JString(str: string)
    | JArray(items: seq<Json>)
    | JObject(fields: map<string, Json>)

  /** `JSON.parse`: the parsed value, or None where it throws a SyntaxError.
      Its internals are not part of this model; every operation that needs
      it takes it as a parameter. */
  type Parser = string -> Option<Json>

  /** JavaScript truthiness: `null`, `false`, `0` and `""` are falsy;
      every array and object is truthy, even an empty one. */
  predicate Truthy(v: Json)
  {
    match v
    case JNull => false
    case JBool(b) => b
    case JNumber(nonZero) => nonZero
    case JString(str) => str != ""
    case JArray(_) => true
    case JObject(_) => true
  }

  /** `v[key]` for a value that is not `null`: the object's own member, or
      `undefined` (None) for a missing member and for every non-object,
      since neither `Object.prototype`, `Array.prototype` nor the
      primitive wrappers define `conversation` or `code`. */
  function Member(v: Json, key: string): Option<Json>
  {
    if v.JObject? && key in v.fields then Some(v.fields[key]) else None
  }

  /** Truthiness of a member read, where `undefined` is falsy. */
  predicate TruthyMember(m: Option<Json>)
  {
    m.Some? && Truthy(m.value)
  }

  /** The falsy JSON values are exactly `null`, `false`, `0` and `""`, the
      ones ToBoolean (section 7.1.2 of ECMA-262) maps to false, less
      `undefined` and `NaN`, which JSON cannot express. */
  lemma FalsyValues(v: Json)
    ensures !Truthy(v) <==> v == JNull || v == JBool(false) || v == JNumber(false) || v == JString("")
  {
  }

  /** Reading a member of a non-null value gives a truthy result exactly
      when the value is an object whose own member of that name is truthy:
      arrays, strings, numbers and booleans have no `conversation` or
      `code` member, and a missing member reads as `undefined`. */
  lemma TruthyMemberIff(v: Json, key: string)
    ensures TruthyMember(Member(v, key)) <==> v.JObject? && key in v.fields && Truthy(v.fields[key])
  {
  }
}
