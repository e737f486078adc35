/** JSON documents: `serde_json::Value`, whose objects keep their keys sorted. */
module Json {

  datatype Number = Integer(i: int) | Decimal(d: real)

  datatype Value =
    | Null
    | Bool(b: bool)
    | Number(n: Number)
    | String(s: string)
    | Array(items: seq<Value>)
    | Object(entries: map<string, Value>)

  // The two values are of the same JSON kind.
  predicate SameKind(a: Value, b: Value) {
    match (a, b)
    case (Null, Null) => true
    case (Bool(_), Bool(_)) => true
    case (Number(_), Number(_)) => true
    case (String(_), String(_)) => true
    case (Array(_), Array(_)) => true
    case (Object(_), Object(_)) => true
    case _ => false
  }
}
