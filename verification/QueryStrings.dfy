/** Query strings as maps from names to values (`parse_query_string`, `build_query_string`). */
module QueryStrings {
  import opened Wrappers
  import opened StringOrder
  import opened Text
  import opened QueryEncoding
  import opened Grouping

  // The values of each name; a name may also appear without a value.
  type Query = map<string, seq<Option<string>>>
  type Parameter = (string, Option<string>)

  // The decoded text, or the text as it is when it does not decode.
  function DecodedOr(s: string): string {
    var r := Decoded(s);
    if r.Some? then r.value else s
  }

  // The parameter between two ampersands, split at the first equals sign; nothing for an empty text.
  function ParseParameter(kv: string): seq<Parameter> {
    if kv == "" then [] else
      var eq := IndexOf(kv, '=');
      if eq.None? then [(DecodedOr(kv), None)]
      else [(DecodedOr(kv[..eq.value]), Some(DecodedOr(kv[eq.value + 1..])))]
  }

  function ParseParameters(parts: seq<string>): seq<Parameter> {
    if parts == [] then [] else
      ParseParameters(parts[..|parts| - 1]) + ParseParameter(parts[|parts| - 1])
  }

  function Parsed(query: string): Option<Query> {
    if query == "" then None else Some(Grouped(ParseParameters(Split(query, '&'))))
  }

  lemma ParseMore(parts: seq<string>, i: nat)
    requires i < |parts|
    ensures ParseParameters(parts[..i + 1]) == ParseParameters(parts[..i]) + ParseParameter(parts[i])
  {
    assert parts[..i + 1][..i] == parts[..i];
  }

  lemma FoldMore(folded: seq<Parameter>, parsed: seq<Parameter>)
    requires |parsed| <= 1
    ensures Grouped(folded + parsed) ==
      if parsed == [] then Grouped(folded) else Pushed(Grouped(folded), parsed[0].0, parsed[0].1)
  {
    if parsed == [] {
      assert folded + parsed == folded;
    } else {
      assert parsed == [parsed[0]];
      GroupedMore(folded, parsed[0]);
    }
  }

  /** Folds the parameters into a map, appending to the values of their names. */
  method ParseQueryString(query: string) returns (r: Option<Query>)
    ensures r == Parsed(query)
  {
    if query == "" {
      return None;
    }
    var parts := Split(query, '&');
    var m: Query := map[];
    ghost var folded: seq<Parameter> := [];
    for i := 0 to |parts|
      invariant folded == ParseParameters(parts[..i]) && m == Grouped(folded)
    {
      ParseMore(parts, i);
      var parsed := ParseParameter(parts[i]);
      FoldMore(folded, parsed);
      if parsed != [] {
        m := Pushed(m, parsed[0].0, parsed[0].1);
      }
      folded := folded + parsed;
    }
    assert parts[..|parts|] == parts;
    r := Some(m);
  }

  // ---- Building

  function Tagged(key: string, values: seq<Option<string>>): seq<Parameter> {
    seq(|values|, i requires 0 <= i < |values| => (key, values[i]))
  }

  // The parameters of the keys, in order.
  function Parameters(keys: seq<string>, query: Query): seq<Parameter>
    requires forall k :: k in keys ==> k in query
  {
    if keys == [] then [] else
      Tagged(keys[0], query[keys[0]]) + Parameters(keys[1..], query)
  }

  predicate Encodable(p: Parameter) {
    p.1.Some? ==> EncodeQuery(p.1.value).Some?
  }

  // The name is written as it is, only the value is encoded.
  function ParameterText(p: Parameter): string
    requires Encodable(p)
  {
    match p.1
    case None => p.0
    case Some(s) => p.0 + "=" + EncodeQuery(s).value
  }

  // The parameters that are written: those with a name, sorted by it.
  function Written(query: Query): seq<Parameter> {
    Parameters(SortedKeys(query.Keys - {""}), query)
  }

  function Texts(ps: seq<Parameter>): seq<string>
    requires forall i :: 0 <= i < |ps| ==> Encodable(ps[i])
  {
    seq(|ps|, i requires 0 <= i < |ps| => ParameterText(ps[i]))
  }

  // `build_query_string`; it panics when a value cannot be encoded.
  function BuildQueryString(query: Query): Option<string> {
    var ps := Written(query);
    if forall i | 0 <= i < |ps| :: Encodable(ps[i]) then Some(Join(Texts(ps), "&")) else None
  }
}
