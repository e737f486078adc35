/** Matching query parameters, and form bodies by way of them. */
module QueryMatching {
  import opened Wrappers
  import opened Grouping
  import opened Paths
  import opened Contexts
  import opened QueryRules

  type Parameters = map<string, seq<Option<string>>>

  // A missing value is an empty one.
  function ValueTexts(values: seq<Option<string>>): seq<string> {
    seq(|values|, i requires 0 <= i < |values| => if values[i].Some? then values[i].value else "")
  }

  // The first `i` values of the expected list, which is padded to the length of the actual one.
  function ParametersReasons(path: Path, expected: seq<string>, actual: seq<string>, i: nat, c: Context): seq<Reason> {
    if i == 0 then [] else
      var so := ParametersReasons(path, expected, actual, i - 1, c);
      var value := if i - 1 < |expected| then expected[i - 1] else "";
      if i - 1 < |actual| then More(so, ParameterReasons(path, value, actual[i - 1], i - 1, c))
      else if c.MatcherIsDefined(path) then so
      else so + [MissingValue]
  }

  function PaddedLength(expected: seq<string>, actual: seq<string>): nat {
    if |expected| < |actual| then |actual| else |expected|
  }

  // `match_query_values`
  function ValuesReasons(key: string, expected: seq<string>, actual: seq<string>, c: Context): seq<Reason> {
    var path := JoinPath([Root], key);
    if c.MatcherIsDefined(path) then RuledReasons(c.SelectBestMatcher(path), path, expected, actual, c)
    else if |expected| == 0 && |actual| > 0 then [UnexpectedValues]
    else
      var values := ParametersReasons(path, expected, actual, PaddedLength(expected, actual), c);
      if |expected| != |actual| then values + [CountDiffers] else values
  }

  method MatchQueryValues(key: string, expected: seq<string>, actual: seq<string>, c: Context) returns (result: seq<Reason>)
    ensures result == ValuesReasons(key, expected, actual, c)
  {
    var path := JoinPath([Root], key);
    if c.MatcherIsDefined(path) {
      result := CompareValueLists(path, c.SelectBestMatcher(path), expected, actual, c.CloneWith(c.matchers));
    } else if |expected| == 0 && |actual| > 0 {
      result := [UnexpectedValues];
    } else {
      result := CompareParameterValues(path, expected, actual, c);
      if |expected| != |actual| {
        result := result + [CountDiffers];
      }
    }
  }

  /** Walks the expected values, padded with empty ones to the number of actual values. */
  method CompareParameterValues(path: Path, expected: seq<string>, actual: seq<string>, c: Context) returns (result: seq<Reason>)
    ensures result == ParametersReasons(path, expected, actual, PaddedLength(expected, actual), c)
  {
    var padded := expected;
    if |expected| < |actual| {
      padded := padded + seq(|actual| - |expected|, _ => "");
    }
    result := [];
    for index := 0 to |padded|
      invariant result == ParametersReasons(path, expected, actual, index, c)
    {
      if index < |actual| {
        assert padded[index] == if index < |expected| then expected[index] else "";
        result := More(result, ParameterReasons(path, padded[index], actual[index], index, c));
      } else if !c.MatcherIsDefined(path) {
        result := result + [MissingValue];
      }
    }
  }

  // What is wrong with one parameter of either side.
  function KeyReasons(key: string, expected: Parameters, actual: Parameters, c: Context): seq<Reason> {
    if key in expected then
      if key in actual then ValuesReasons(key, ValueTexts(expected[key]), ValueTexts(actual[key]), c.Under(key)) else [MissingParameter]
    else if key in actual then [UnexpectedParameter]
    else []
  }

  function ReasonsFor(keys: set<string>, expected: Parameters, actual: Parameters, c: Context): map<string, seq<Reason>> {
    map key | key in keys :: KeyReasons(key, expected, actual, c)
  }

  lemma ReasonsMore(keys: set<string>, key: string, expected: Parameters, actual: Parameters, c: Context)
    requires key !in keys
    ensures key !in ReasonsFor(keys, expected, actual, c)
    ensures ReasonsFor(keys + {key}, expected, actual, c) ==
      ReasonsFor(keys, expected, actual, c)[key := KeyReasons(key, expected, actual, c)]
  {
  }

  // `entry(key).or_default()`, extended
  function Extended(result: map<string, seq<Reason>>, key: string, found: seq<Reason>): map<string, seq<Reason>> {
    result[key := if key in result then result[key] + found else found]
  }

  /** Walks both hash maps, in any order. */
  method MatchQueryMaps(expected: Parameters, actual: Parameters, c: Context)
    returns (result: map<string, seq<Reason>>)
    ensures result == ReasonsFor(expected.Keys + actual.Keys, expected, actual, c)
  {
    result := MatchExpected(expected, actual, c);
    var keys := actual.Keys;
    while keys != {}
      invariant keys <= actual.Keys
      invariant result == ReasonsFor(KeysSeen(expected.Keys, actual.Keys, keys), expected, actual, c)
      decreases |keys|
    {
      var key :| key in keys;
      KeySeen(expected.Keys, actual.Keys, keys, key);
      if key !in expected {
        ReasonsMore(KeysSeen(expected.Keys, actual.Keys, keys), key, expected, actual, c);
        result := Extended(result, key, [UnexpectedParameter]);
      }
      keys := keys - {key};
    }
    assert actual.Keys - {} == actual.Keys;
  }

  // All but the actual keys that are left.
  function KeysSeen(expected: set<string>, actual: set<string>, left: set<string>): set<string> {
    expected + (actual - left)
  }

  lemma KeySeen(expected: set<string>, actual: set<string>, left: set<string>, key: string)
    requires key in left && left <= actual
    ensures KeysSeen(expected, actual, left - {key}) ==
      if key in expected then KeysSeen(expected, actual, left) else KeysSeen(expected, actual, left) + {key}
  {
  }

  method MatchExpected(expected: Parameters, actual: Parameters, c: Context)
    returns (result: map<string, seq<Reason>>)
    ensures result == ReasonsFor(expected.Keys, expected, actual, c)
  {
    result := map[];
    var keys := expected.Keys;
    ghost var done := {};
    while keys != {}
      invariant keys <= expected.Keys && done == expected.Keys - keys
      invariant result == ReasonsFor(done, expected, actual, c)
      decreases |keys|
    {
      var key :| key in keys;
      keys := keys - {key};
      ReasonsMore(done, key, expected, actual, c);
      if key in actual {
        var found := MatchQueryValues(key, ValueTexts(expected[key]), ValueTexts(actual[key]), c.Under(key));
        result := Extended(result, key, found);
      } else {
        result := Extended(result, key, [MissingParameter]);
      }
      done := done + {key};
    }
    assert done == expected.Keys;
  }

  // ---- Forms

  type Form = seq<(string, string)>

  function NameOf(pair: (string, string)): string {
    pair.0
  }

  function SomeValues(pairs: seq<(string, string)>): seq<Option<string>> {
    seq(|pairs|, i requires 0 <= i < |pairs| => Some(pairs[i].1))
  }

  function FormParameters(form: Form): Parameters {
    GroupParameters(Grouped(Keyed(form, NameOf)))
  }

  // What is wrong with one name of either form.
  function FormReasons(name: string, expected: Form, actual: Form, c: Context): seq<Reason> {
    KeyReasons(name, FormParameters(expected), FormParameters(actual), c)
  }

  // The list holds the reasons for these names, in some order of the names.
  ghost predicate Holds(result: seq<(string, Reason)>, reasons: map<string, seq<Reason>>, names: set<string>) {
    forall name :: ValuesOf(result, name) == if name in reasons && name in names then reasons[name] else []
  }

  lemma HoldsMore(result: seq<(string, Reason)>, reasons: map<string, seq<Reason>>, names: set<string>, name: string)
    requires Holds(result, reasons, names) && name !in names && name in reasons
    ensures Holds(result + Named(name, reasons[name]), reasons, names + {name})
  {
    var more := result + Named(name, reasons[name]);
    forall other ensures ValuesOf(more, other) == if other in reasons && other in names + {name} then reasons[other] else [] {
      ValuesOfConcat(result, Named(name, reasons[name]), other);
      NamedValues(name, reasons[name], other);
    }
  }

  // All the reasons, with the names in any order.
  method Flatten(reasons: map<string, seq<Reason>>) returns (result: seq<(string, Reason)>)
    ensures Holds(result, reasons, reasons.Keys)
  {
    result := [];
    var names := reasons.Keys;
    ghost var done := {};
    while names != {}
      invariant names <= reasons.Keys && done == reasons.Keys - names
      invariant Holds(result, reasons, done)
      decreases |names|
    {
      var name :| name in names;
      names := names - {name};
      HoldsMore(result, reasons, done, name);
      result := result + Named(name, reasons[name]);
      done := done + {name};
    }
    assert done == reasons.Keys;
  }

  function Named(name: string, list: seq<Reason>): seq<(string, Reason)> {
    seq(|list|, i requires 0 <= i < |list| => (name, list[i]))
  }

  lemma {:induction false} NamedValues(name: string, list: seq<Reason>, other: string)
    ensures ValuesOf(Named(name, list), other) == if other == name then list else []
    decreases |list|
  {
    if list != [] {
      var n := |list| - 1;
      assert Named(name, list)[..n] == Named(name, list[..n]);
      NamedValues(name, list[..n], other);
    }
  }

  function GroupParameters(groups: map<string, seq<(string, string)>>): Parameters {
    map name | name in groups :: SomeValues(groups[name])
  }

  /** Groups both forms by name and matches them as parameters; no mismatches is acceptance. */
  method MatchForms(expected: Form, actual: Form, c: Context) returns (result: seq<(string, Reason)>)
    ensures forall name :: ValuesOf(result, name) == FormReasons(name, expected, actual, c)
  {
    var expectedGroups := GroupBy(expected, NameOf);
    var actualGroups := GroupBy(actual, NameOf);
    var e, a := GroupParameters(expectedGroups), GroupParameters(actualGroups);
    var reasons := MatchQueryMaps(e, a, c);
    result := Flatten(reasons);
    forall name ensures ValuesOf(result, name) == KeyReasons(name, e, a, c) {
      assert name in reasons <==> name in e.Keys + a.Keys;
    }
  }
}
