/**
 * The JSON data model the patch engine works on.  Objects are maps, so two
 * objects are equal exactly when they have the same members, whatever order
 * they were written in; numbers are integers.
 */
module JsonValue {

  datatype Option<+T> = None | Some(value: T)

  datatype Json =
    | JNull
    | JBool(b: bool)
    | JNum(n: int)
    | JStr(s: string)
    | JArr(items: seq<Json>)
    | JObj(members: map<string, Json>)
  {
    /** Objects and arrays are the two containers a pointer can step into. */
    predicate IsContainer() {
      JObj? || JArr?
    }
  }

  /** The empty object `{}`. */
  const EmptyObject: Json := JObj(map[])

  /** `Map::get`: the member stored under `key`, if any. */
  function Get(m: map<string, Json>, key: string): (r: Option<Json>)
    ensures r.Some? <==> key in m
    ensures r.Some? ==> r.value == m[key]
  {
    if key in m then Some(m[key]) else None
  }
}
