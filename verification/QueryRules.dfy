/** The list comparator (`compare_lists_with_matchingrules`) on the values of a query parameter. The program has one
  * comparator for lists of anything, which calls back for the items; here it is written for strings, and in
  * `JsonVerdicts` for JSON, where that call is the recursion. What does not call back is shared. */
module QueryRules {
  import opened Json
  import opened Paths
  import opened Rules
  import opened Contexts
  import opened RuleMatching

  datatype Reason =
    | MissingParameter | UnexpectedParameter | UnexpectedValues | CountDiffers | ValueDiffers | MissingValue
    | RuleFailed | NoRule | UnknownReference | MissingVariant | UnmatchedVariant

  function RuleReasons(v: Verdict): seq<Reason> {
    if v.Ok? then [] else seq(|v.mismatches|, _ => RuleFailed)
  }

  // `compare_query_parameter_value`
  function ParameterReasons(path: Path, expected: string, actual: string, index: nat, c: Context): seq<Reason> {
    var p := JoinPath(path, ShowNat(index));
    if c.MatcherIsDefined(p) then RuleReasons(MatchStrings(p, c.SelectBestMatcher(p), expected, actual, c.foreign))
    else if expected == actual then []
    else [ValueDiffers]
  }

  // The reasons found so far, with more of them.
  function More(so: seq<Reason>, found: seq<Reason>): seq<Reason> {
    if |found| == 0 then so else so + found
  }

  // ---- What the comparator finds; every value is compared as if it were the first of its parameter

  // All the reasons, in order.
  function Joined(results: seq<seq<Reason>>): seq<Reason> {
    if |results| == 0 then [] else
      var n := |results| - 1;
      More(Joined(results[..n]), results[n])
  }

  function RuleResults(list: RuleList, path: Path, e: seq<string>, a: seq<string>, c: Context): seq<seq<Reason>> {
    seq(|list.rules|, i requires 0 <= i < |list.rules| => ListReasons(list.rules[i], list.cascaded, path, e, a, c.Again(i)))
  }

  function CombinedReasons(logic: RuleLogic, results: seq<seq<Reason>>): seq<Reason> {
    if |results| == 0 then [NoRule]
    else if logic == Or && exists i :: 0 <= i < |results| && |results[i]| == 0 then []
    else Joined(results)
  }

  function RuledReasons(list: RuleList, path: Path, e: seq<string>, a: seq<string>, c: Context): seq<Reason> {
    CombinedReasons(list.logic, RuleResults(list, path, e, a, c))
  }

  // `compare_lists_with_matchingrule`
  function ListReasons(rule: MatchingRule, cascaded: bool, path: Path, e: seq<string>, a: seq<string>, c: Context): seq<Reason> {
    if |e| == 0 then []
    else if rule.ArrayContains? then
      var variants := if rule.variants == [] then DefaultVariants(|e|) else rule.variants;
      VariantReasons(variants, |variants|, e, a, c)
    else if rule.EachValue? then
      if cascaded then []
      else More(ReferenceReasons(rule.valueRules),
        ContentReasons(FilledLength(|e|, |a|), path, e, a, c.CloneWith(EachValueCategory(path, rule.valueRules))))
    else
      var whole := if ListMatches(rule, e, a, cascaded) then [] else [RuleFailed];
      More(whole, ContentReasons(FilledLength(|e|, |a|), path, e, a, c))
  }

  function ReferenceReasons(rules: seq<RuleOrReference>): seq<Reason> {
    seq(|References([], rules)|, _ => UnknownReference)
  }

  // The first `i` variants.
  function VariantReasons(variants: seq<Variant>, i: nat, e: seq<string>, a: seq<string>, c: Context): seq<Reason>
    requires i <= |variants|
  {
    if i == 0 then [] else
      var so, variant := VariantReasons(variants, i - 1, e, a, c), variants[i - 1];
      if variant.index >= |e| then so + [MissingVariant]
      else if SomeMatches(e[variant.index], a, |a|, c.Again(i - 1).CloneWith(variant.rules)) then so
      else so + [UnmatchedVariant]
  }

  // Whether one of the first `n` values matches; their paths start at the root again.
  predicate SomeMatches(value: string, a: seq<string>, n: nat, c: Context)
    requires n <= |a|
  {
    n > 0 && (SomeMatches(value, a, n - 1, c) || |ParameterReasons([Root], value, a[n - 1], 0, c.Trying(String(a[n - 1])))| == 0)
  }

  // The first `i` values (`match_list_contents`).
  function ContentReasons(i: nat, path: Path, e: seq<string>, a: seq<string>, c: Context): seq<Reason>
    requires |e| > 0
  {
    if i == 0 then [] else
      var so := ContentReasons(i - 1, path, e, a, c);
      var p := JoinPath(path, ShowNat(i - 1));
      if i - 1 < |a| then More(so, ParameterReasons(p, FilledItem(e, i - 1), a[i - 1], 0, c))
      else if !c.MatcherIsDefined(p) then so + [MissingValue]
      else so
  }

  // ---- The comparator

  /** Applies every rule of the list, and combines the results by its logic. */
  method CompareValueLists(path: Path, list: RuleList, expected: seq<string>, actual: seq<string>, context: Context)
    returns (mismatches: seq<Reason>)
    ensures mismatches == RuledReasons(list, path, expected, actual, context)
  {
    if |list.rules| == 0 {
      return [NoRule];
    }
    var results: seq<seq<Reason>> := [];
    for i := 0 to |list.rules|
      invariant results == RuleResults(list, path, expected, actual, context)[..i]
    {
      var result := CompareValueList(list.rules[i], list.cascaded, path, expected, actual, context.Again(i));
      results := results + [result];
    }
    assert results == RuleResults(list, path, expected, actual, context);
    mismatches := CombineResults(list.logic, results);
  }

  method CombineResults(logic: RuleLogic, results: seq<seq<Reason>>) returns (mismatches: seq<Reason>)
    requires |results| > 0
    ensures mismatches == CombinedReasons(logic, results)
  {
    mismatches := [];
    var allFail := true;
    for i := 0 to |results|
      invariant mismatches == Joined(results[..i])
      invariant allFail <==> forall j :: 0 <= j < i ==> |results[j]| > 0
    {
      assert results[..i + 1][..i] == results[..i];
      mismatches := More(mismatches, results[i]);
      allFail := allFail && |results[i]| > 0;
    }
    assert results[..|results|] == results;
    if logic == Or && !allFail {
      mismatches := [];
    }
  }

  method CompareValueList(rule: MatchingRule, cascaded: bool, path: Path, expected: seq<string>, actual: seq<string>, context: Context)
    returns (result: seq<Reason>)
    ensures result == ListReasons(rule, cascaded, path, expected, actual, context)
  {
    result := [];
    if |expected| > 0 {
      if rule.ArrayContains? {
        var variants := if rule.variants == [] then DefaultVariants(|expected|) else rule.variants;
        result := FindVariants(variants, expected, actual, context);
      } else if rule.EachValue? {
        if !cascaded {
          var content := MatchContents(path, expected, actual, context.CloneWith(EachValueCategory(path, rule.valueRules)));
          result := More(ReferenceReasons(rule.valueRules), content);
        }
      } else {
        var content := MatchContents(path, expected, actual, context);
        if !ListMatches(rule, expected, actual, cascaded) {
          result := [RuleFailed];
        }
        result := More(result, content);
      }
    }
  }

  method FindVariants(variants: seq<Variant>, expected: seq<string>, actual: seq<string>, context: Context) returns (result: seq<Reason>)
    ensures result == VariantReasons(variants, |variants|, expected, actual, context)
  {
    result := [];
    for i := 0 to |variants|
      invariant result == VariantReasons(variants, i, expected, actual, context)
    {
      var index, rules := variants[i].index, variants[i].rules;
      if index >= |expected| {
        result := result + [MissingVariant];
      } else {
        var found := FindValue(expected[index], actual, context.Again(i).CloneWith(rules));
        if !found {
          result := result + [UnmatchedVariant];
        }
      }
    }
  }

  method FindValue(value: string, actual: seq<string>, context: Context) returns (found: bool)
    ensures found == SomeMatches(value, actual, |actual|, context)
  {
    found := false;
    var j := 0;
    while j < |actual| && !found
      invariant j <= |actual|
      invariant found == SomeMatches(value, actual, j, context)
    {
      found := |ParameterReasons([Root], value, actual[j], 0, context.Trying(String(actual[j])))| == 0;
      j := j + 1;
    }
    SomeMatchesMore(value, actual, j, |actual|, context);
  }

  lemma {:induction false} SomeMatchesMore(value: string, a: seq<string>, j: nat, n: nat, c: Context)
    requires j <= n <= |a|
    ensures SomeMatches(value, a, j, c) ==> SomeMatches(value, a, n, c)
  {
    if j < n {
      SomeMatchesMore(value, a, j, n - 1, c);
    }
  }

  method MatchContents(path: Path, expected: seq<string>, actual: seq<string>, context: Context) returns (result: seq<Reason>)
    requires |expected| > 0
    ensures result == ContentReasons(FilledLength(|expected|, |actual|), path, expected, actual, context)
  {
    var expectedList := expected;
    if |actual| > |expected| {
      expectedList := expectedList + seq(|actual| - |expected|, _ => expected[0]);
    }
    result := [];
    for index := 0 to |expectedList|
      invariant result == ContentReasons(index, path, expected, actual, context)
    {
      var p := JoinPath(path, ShowNat(index));
      if index < |actual| {
        assert expectedList[index] == FilledItem(expected, index);
        result := More(result, ParameterReasons(p, expectedList[index], actual[index], 0, context));
      } else if !context.MatcherIsDefined(p) {
        result := result + [MissingValue];
      }
    }
  }
}
