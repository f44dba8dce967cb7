/**
 * The untyped JSON tree the handler receives (`serde_json::Value`) and the
 * accessors of it that the validator calls. Numbers are never inspected by
 * the core, so they carry an integer only to be a value at all.
 */
module JsonValue {
  import opened Wrappers

  datatype Json =
    | Null
    | Bool(b: bool)
    | Number(n: int)
    | Str(s: string)
    | Arr(elems: seq<Json>)
    | Obj(fields: map<string, Json>)

  /** `Value::is_object`: whether the value is an object of some map. */
  predicate IsObject(v: Json)
    ensures IsObject(v) <==> exists m :: v == Obj(m)
  {
    match v
    case Obj(_) => true
    case _ => false
  }

  /** `Value::as_object`: the object's map, or nothing for every other kind of value. */
  function AsObject(v: Json): (r: Option<map<string, Json>>)
    ensures r.Some? <==> IsObject(v)
    ensures r.Some? ==> v == Obj(r.value)
  {
    match v
    case Obj(m) => Some(m)
    case _ => None
  }

  /** `Map::get`: the value stored under `key`, or nothing when the key is absent. */
  function Get(m: map<string, Json>, key: string): (r: Option<Json>)
    ensures r.Some? <==> key in m
    ensures r.Some? ==> m[key] == r.value
  {
    if key in m then Some(m[key]) else None
  }

  /** `Value::is_string`: whether the value is a string of some contents. */
  predicate IsString(v: Json)
    ensures IsString(v) <==> exists s :: v == Str(s)
  {
    match v
    case Str(_) => true
    case _ => false
  }

  /** `Value::as_str`: the string's contents, or nothing for every other kind of value. */
  function AsStr(v: Json): (r: Option<string>)
    ensures r.Some? <==> IsString(v)
    ensures r.Some? ==> v == Str(r.value)
  {
    match v
    case Str(s) => Some(s)
    case _ => None
  }

  /** The `as_object` call cannot come back empty once `is_object` has held. */
  lemma AsObjectDefinedOnObjects(v: Json)
    requires IsObject(v)
    ensures AsObject(v) == Some(v.fields)
  {
  }

  /** The `as_str` call cannot come back empty once `is_string` has held. */
  lemma AsStrDefinedOnStrings(v: Json)
    requires IsString(v)
    ensures AsStr(v) == Some(v.s)
  {
  }
}
