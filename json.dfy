/** Values the engine's interchange format can carry: null, booleans,
    numbers, strings, arrays and objects. */
module Json {

  datatype Json =
    | JNull
    | JBool(b: bool)
    | JNum(n: int)
    | JStr(s: string)
    | JArr(items: seq<Json>)
    | JObj(fields: map<string, Json>)

  /** The values JavaScript's `||` treats as false. */
  predicate Falsy(v: Json) {
    v == JNull || v == JBool(false) || v == JNum(0) || v == JStr("")
  }

  /** The empty object `{}`. */
  const EmptyObject: Json := JObj(map[])

  /** Deep copy: `JSON.parse(JSON.stringify(v))`, written as a structural
      copy. On representable values the copy equals the original. */
  function Clone(v: Json): (c: Json)
    ensures c == v
  {
    match v
    case JNull => JNull
    case JBool(b) => JBool(b)
    case JNum(n) => JNum(n)
    case JStr(s) => JStr(s)
    case JArr(items) =>
      var copies := seq(|items|, i requires 0 <= i < |items| => Clone(items[i]));
      assert copies == items;
      JArr(copies)
    case JObj(fields) =>
      var copies := map k | k in fields :: Clone(fields[k]);
      assert copies == fields;
      JObj(copies)
  }

  /** Deep copy of every element of a sequence of values. */
  function CloneAll(vs: seq<Json>): (cs: seq<Json>)
    ensures cs == vs
  {
    var copies := seq(|vs|, i requires 0 <= i < |vs| => Clone(vs[i]));
    assert copies == vs;
    copies
  }
}
