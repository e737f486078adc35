/** When query parameters are accepted, for every context: where their values look the rules up. */
module QueryValueLaws {
  import opened Wrappers
  import opened Paths
  import opened Contexts
  import opened RuleMatching
  import opened Reports
  import opened QueryRules
  import opened QueryMatching

  function ParameterPath(key: string): Path {
    [Root, TokenOf(key)]
  }

  // A value passes the rules for its index, or is equal where there are none.
  predicate ValueAccepted(path: Path, i: nat, e: string, a: string, c: Context) {
    var p := path + [TokenOf(ShowNat(i))];
    if c.MatcherIsDefined(p) then StringsPass(c.SelectBestMatcher(p), e, a, c.foreign) else e == a
  }

  lemma OneValueExactly(path: Path, i: nat, e: string, a: string, c: Context)
    ensures |ParameterReasons(path, e, a, i, c)| == 0 <==> ValueAccepted(path, i, e, a, c)
  {
    var p := JoinPath(path, ShowNat(i));
    var list := c.SelectBestMatcher(p);
    MatchStringsExactly(p, list, e, a, c.foreign);
    CombinedExactly(p, list.logic, StringResults(list, e, a, c.foreign));
  }

  predicate FirstValuesAccepted(n: nat, path: Path, e: seq<string>, a: seq<string>, c: Context)
    requires n <= |e| && n <= |a|
  {
    forall i | 0 <= i < n :: ValueAccepted(path, i, e[i], a[i], c)
  }

  lemma NextValueAccepted(n: nat, path: Path, e: seq<string>, a: seq<string>, c: Context)
    requires n < |e| && n < |a|
    ensures FirstValuesAccepted(n + 1, path, e, a, c) <==>
      FirstValuesAccepted(n, path, e, a, c) && ValueAccepted(path, n, e[n], a[n], c)
  {
  }

  lemma {:induction false} FirstValuesExactly(n: nat, path: Path, e: seq<string>, a: seq<string>, c: Context)
    requires n <= |e| && n <= |a|
    ensures |ParametersReasons(path, e, a, n, c)| == 0 <==> FirstValuesAccepted(n, path, e, a, c)
  {
    if n > 0 {
      FirstValuesExactly(n - 1, path, e, a, c);
      OneValueExactly(path, n - 1, e[n - 1], a[n - 1], c);
      NextValueAccepted(n - 1, path, e, a, c);
    }
  }

  /** Without a rule for the parameter there have to be as many values as expected, each accepted at its own index. */
  lemma PlainValuesExactly(key: string, e: seq<string>, a: seq<string>, c: Context)
    requires !c.MatcherIsDefined(ParameterPath(key))
    ensures |ValuesReasons(key, e, a, c)| == 0 <==>
      |e| == |a| && forall i | 0 <= i < |e| && i < |a| :: ValueAccepted(ParameterPath(key), i, e[i], a[i], c)
  {
    assert JoinPath([Root], key) == ParameterPath(key);
    if |e| == |a| {
      FirstValuesExactly(|e|, ParameterPath(key), e, a, c);
    }
  }

  /** With a rule for the parameter, the values are handed to the list comparator with the list selected there. */
  lemma RuledValues(key: string, e: seq<string>, a: seq<string>, c: Context)
    requires c.MatcherIsDefined(ParameterPath(key))
    ensures ValuesReasons(key, e, a, c) == RuledReasons(c.SelectBestMatcher(ParameterPath(key)), ParameterPath(key), e, a, c)
  {
    assert JoinPath([Root], key) == ParameterPath(key);
  }

  // A missing value is read as an empty one.
  lemma MissingIsEmpty(values: seq<Option<string>>, i: nat)
    requires i < |values|
    ensures |ValueTexts(values)| == |values| && ValueTexts(values)[i] == if values[i] == None then "" else values[i].value
  {
  }

  /** Parameters are accepted when both sides have the same names, and the values of each name are accepted. */
  lemma ParametersExactly(expected: Parameters, actual: Parameters, c: Context)
    ensures (forall key :: |KeyReasons(key, expected, actual, c)| == 0) <==>
      && expected.Keys == actual.Keys
      && forall key | key in expected && key in actual ::
        |ValuesReasons(key, ValueTexts(expected[key]), ValueTexts(actual[key]), c.Under(key))| == 0
  {
    if forall key :: |KeyReasons(key, expected, actual, c)| == 0 {
      forall key ensures key in expected <==> key in actual {
        assert |KeyReasons(key, expected, actual, c)| == 0;
      }
      forall key | key in expected && key in actual
        ensures |ValuesReasons(key, ValueTexts(expected[key]), ValueTexts(actual[key]), c.Under(key))| == 0
      {
        assert |KeyReasons(key, expected, actual, c)| == 0;
      }
    }
  }
}
