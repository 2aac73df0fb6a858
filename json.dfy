/**
 * JSON values as the handlers receive them from a request body, with
 * the two Python behaviours the handlers rely on: truthiness (`if not x`)
 * and how a value ends up in, or is compared with, a table column.
 */
module Json {
  import opened Wrappers
  import Numerals

  datatype Value =
    | Null
    | Bool(b: bool)
    | Int(i: int)
    | Str(s: string)
    | Array(items: seq<Value>)
    | Object(fields: map<string, Value>)

  /** Python truthiness: None, False, 0, "", [] and {} are false, everything else true. */
  predicate Truthy(v: Value)
    ensures Truthy(v) <==> v != Null && v != Bool(false) && v != Int(0) && v != Str("") &&
                           v != Array([]) && v != Object(map[])
  {
    match v
    case Null => false
    case Bool(b) => b
    case Int(i) => i != 0
    case Str(s) => s != ""
    case Array(items) => |items| > 0
    case Object(fields) => |fields| > 0
  }

  /** `body.get(key)`: the value under `key`, or None (Python's None) when the key is absent. */
  function Get(body: map<string, Value>, key: string): (v: Value) {
    if key in body then body[key] else Null
  }

  /**
   * The text a value becomes in (or is compared as against) a text
   * column: strings as they are, integers as their decimal text; any
   * other value is refused by the database (None).
   */
  function AsText(v: Value): (r: Option<string>)
    ensures v.Str? ==> r == Some(v.s)
    ensures v.Int? ==> r == Some(Numerals.IntToDecimal(v.i))
    ensures r.Some? <==> v.Str? || v.Int?
    ensures v.Int? && Numerals.InInt32(v.i) ==> Numerals.ParseInt32(r.value) == Some(v.i)
  {
    match v
    case Str(s) => Some(s)
    case Int(i) =>
      if Numerals.InInt32(i) then Numerals.IntTextRoundTrip(i); Some(Numerals.IntToDecimal(i))
      else Some(Numerals.IntToDecimal(i))
    case _ => None
  }

  /**
   * The integer a value becomes in an `integer` column: 32-bit integers
   * as they are, strings through the database's integer input; any other
   * value is refused (None).
   */
  function AsInteger(v: Value): (r: Option<int>)
    ensures r.Some? ==> Numerals.InInt32(r.value)
    ensures r.Some? ==> v.Int? || v.Str?
    ensures v.Int? ==> (r.Some? <==> Numerals.InInt32(v.i)) && (r.Some? ==> r.value == v.i)
    ensures v.Str? ==> r == Numerals.ParseInt32(v.s)
  {
    match v
    case Int(i) => if Numerals.InInt32(i) then Some(i) else None
    case Str(s) => Numerals.ParseInt32(s)
    case _ => None
  }
}
