/** Decoded JSON documents. Numbers keep their source text, objects are maps from key to value. */
module Json {
  import opened Values
  import opened JsonbNumber

  datatype Node =
    | JNull
    | JBool(b: bool)
    | JNumber(text: string)
    | JString(s: string)
    | JArray(items: seq<Node>)
    | JObject(members: map<string, Node>)

  /** Every number of the document has a canonical spelling. */
  ghost predicate Printable(n: Node)
    decreases n
  {
    match n
    case JNumber(text) => CanonicalNumber(text).Ok?
    case JArray(items) => forall k | 0 <= k < |items| :: Printable(items[k])
    case JObject(members) => forall key <- members :: Printable(members[key])
    case _ => true
  }

  ghost predicate SameNumber(x: string, y: string) {
    CanonicalNumber(x).Ok? && CanonicalNumber(y).Ok? && NumberValue(x) == NumberValue(y)
  }

  /** Equality of documents up to the spelling of numbers. */
  ghost predicate Equivalent(a: Node, b: Node)
    decreases a
  {
    match a
    case JNull => b.JNull?
    case JBool(x) => b == JBool(x)
    case JNumber(x) => b.JNumber? && SameNumber(x, b.text)
    case JString(x) => b == JString(x)
    case JArray(items) =>
      b.JArray? && |items| == |b.items| && forall k | 0 <= k < |items| :: Equivalent(items[k], b.items[k])
    case JObject(members) =>
      b.JObject? && members.Keys == b.members.Keys && forall key <- members :: Equivalent(members[key], b.members[key])
  }
}
