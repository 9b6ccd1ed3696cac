/**
 * The Python values that cross the JSON boundary between the gateway and the collector, with the
 * parts of Python's semantics the two programs rely on: truthiness, dict.get, the `in` operator and
 * what sqlite3 accepts as a bound parameter.
 *
 * The JSON text itself (json.dumps / json.loads) is library code; the programs that use it take it
 * as a pair of functions, and the properties that need it state what they assume of them.
 */
module JsonValue {
  import opened Wrappers

  /** A decoded JSON document: None, bool, int, float (as an exact real), str, list or dict. */
  datatype Json =
    | JNull
    | JBool(b: bool)
    | JInt(i: int)
    | JFloat(r: real)
    | JString(s: string)
    | JArray(items: seq<Json>)
    | JObject(fields: map<string, Json>)

  /** Python's truth value: None, False, zero, and empty str, list or dict are false. */
  predicate Truthy(j: Json) {
    match j
    case JNull => false
    case JBool(b) => b
    case JInt(i) => i != 0
    case JFloat(r) => r != 0.0
    case JString(s) => s != []
    case JArray(a) => a != []
    case JObject(m) => m != map[]
  }

  /** dict.get(key, default). */
  function Get(m: map<string, Json>, key: string, default: Json): (r: Json)
    ensures key in m ==> r == m[key]
    ensures key !in m ==> r == default
  {
    if key in m then m[key] else default
  }

  /** `needle` occurs in `hay` starting at index i. */
  predicate OccursAt(needle: string, hay: string, i: int) {
    0 <= i && i + |needle| <= |hay| && hay[i..i + |needle|] == needle
  }

  /** Python's `needle in hay` on two str values. */
  predicate IsSubstring(needle: string, hay: string) {
    exists i | 0 <= i <= |hay| :: OccursAt(needle, hay, i)
  }

  /**
   * Python's `key in container` for a str key: dict membership, list element equality, or substring
   * test. Any other container raises TypeError, shown as None.
   */
  function In(key: string, container: Json): (r: Option<bool>)
    ensures r.None? <==> !(container.JObject? || container.JArray? || container.JString?)
    ensures container.JObject? ==> r == Some(key in container.fields)
  {
    match container
    case JObject(m) => Some(key in m)
    case JArray(a) => Some(JString(key) in a)
    case JString(s) => Some(IsSubstring(key, s))
    case _ => None
  }

  const Int64Min: int := -0x8000_0000_0000_0000
  const Int64Max: int := 0x7fff_ffff_ffff_ffff

  /**
   * What sqlite3 binds as a statement parameter: None, bool and int (within 64 bits), float and str.
   * A list or dict is refused and an int outside 64 bits overflows; both raise.
   */
  predicate Bindable(v: Json) {
    match v
    case JNull => true
    case JBool(_) => true
    case JInt(i) => Int64Min <= i <= Int64Max
    case JFloat(_) => true
    case JString(_) => true
    case JArray(_) => false
    case JObject(_) => false
  }
}
