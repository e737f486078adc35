/** The JSON comparator, which collects mismatches in loops. */
module JsonMatching {
  import opened Json
  import opened StringOrder
  import opened Paths
  import opened Rules
  import opened Contexts
  import opened RuleMatching
  import opened JsonVerdicts

  method CompareJson(path: Path, expected: Value, actual: Value, context: Context) returns (verdict: Verdict)
    ensures verdict == JsonVerdict(path, expected, actual, context)
    decreases expected, 5, 0
  {
    if expected.Object? {
      if actual.Object? {
        verdict := CompareMaps(path, expected, actual, context);
      } else {
        verdict := Fail(path, TypeMismatch);
      }
    } else if expected.Array? {
      if actual.Array? {
        verdict := CompareLists(path, expected, actual, context);
      } else {
        verdict := Fail(path, TypeMismatch);
      }
    } else {
      verdict := ValuesVerdict(path, expected, actual, context);
    }
  }

  // ---- Maps

  method CompareMaps(path: Path, expected: Value, actual: Value, context: Context) returns (result: Verdict)
    requires expected.Object? && actual.Object?
    ensures result == MapsVerdict(path, expected, actual, context)
    decreases expected, 4, 0
  {
    if expected.entries == map[] && context.config == NoUnexpectedKeys && actual.entries != map[] {
      return Fail(path, UnexpectedEntries);
    }
    result := Ok;
    if context.MatcherIsDefined(path) {
      var list := context.SelectBestMatcher(path);
      for i := 0 to |list.rules|
        invariant result == MapRulesVerdict(list, i, path, expected, actual, context)
      {
        var result1 := CompareMapsWithMatchingRule(list.rules[i], list.cascaded, path, expected, actual, context.Again(i));
        result := MergeResult(result, result1);
      }
    } else {
      var keys := MatchKeys(context, path, expected.entries.Keys, actual.entries.Keys);
      result := CompareEntries(MergeResult(result, keys), path, expected, actual, context);
    }
  }

  method CompareEntries(start: Verdict, path: Path, expected: Value, actual: Value, context: Context) returns (result: Verdict)
    requires expected.Object? && actual.Object?
    ensures var keys := SortedKeys(expected.entries.Keys);
      result == EntriesVerdict(start, keys, |keys|, path, expected, actual, context)
    decreases expected, 1, 0
  {
    result := start;
    var keys := SortedKeys(expected.entries.Keys);
    for i := 0 to |keys|
      invariant result == EntriesVerdict(start, keys, i, path, expected, actual, context)
    {
      var key := keys[i];
      assert key in keys;
      if key in actual.entries {
        var entry := CompareJson(JoinPath(path, key), expected.entries[key], actual.entries[key], context.Under(key));
        result := MergeResult(result, entry);
      }
    }
  }

  /** Under a values rule every actual entry is compared; otherwise the expected entries that are there. */
  method CompareMapsWithMatchingRule(rule: MatchingRule, cascaded: bool, path: Path, expected: Value, actual: Value, context: Context)
    returns (result: Verdict)
    requires expected.Object? && actual.Object?
    ensures result == MapRuleVerdict(rule, cascaded, path, expected, actual, context)
    decreases expected, 2, 0
  {
    result := Ok;
    if !cascaded && IsValuesMatcher(rule) {
      if rule.EachValue? {
        result := VerdictOf(References(path, rule.valueRules));
        result := CompareAnyKeys(result, path, expected, actual, context.CloneWith(EachValueCategory(path, rule.valueRules)));
      } else {
        result := CompareAnyKeys(result, path, expected, actual, context.CloneWith(context.matchers));
      }
    } else {
      if !MapMatches(rule, expected.entries, actual.entries, cascaded) {
        result := MergeResult(result, Fail(path, RuleMismatch));
      }
      var keys := MatchKeys(context, path, expected.entries.Keys, actual.entries.Keys);
      result := CompareEntries(MergeResult(result, keys), path, expected, actual, context);
    }
  }

  method CompareAnyKeys(start: Verdict, path: Path, expected: Value, actual: Value, context: Context) returns (result: Verdict)
    requires expected.Object? && actual.Object?
    ensures var keys := SortedKeys(actual.entries.Keys);
      result == AnyKeyVerdict(start, keys, |keys|, path, expected, actual, context)
    decreases expected, 1, 0
  {
    result := start;
    var keys := SortedKeys(actual.entries.Keys);
    for i := 0 to |keys|
      invariant result == AnyKeyVerdict(start, keys, i, path, expected, actual, context)
    {
      var key := keys[i];
      assert key in keys;
      var p := JoinPath(path, key);
      if key in expected.entries {
        var entry := CompareJson(p, expected.entries[key], actual.entries[key], context.Under(key));
        result := MergeResult(result, entry);
      } else if expected.entries.Keys != {} {
        var entry := CompareJson(p, FirstValue(expected.entries), actual.entries[key], context.Under(key));
        result := MergeResult(result, entry);
      }
    }
  }

  // ---- Lists

  method CompareLists(path: Path, expected: Value, actual: Value, context: Context) returns (result: Verdict)
    requires expected.Array? && actual.Array?
    ensures result == ListsVerdict(path, expected, actual, context)
    decreases expected, 4, 0
  {
    if context.MatcherIsDefined(path) {
      result := CompareListsWithMatchingRules(path, context.SelectBestMatcher(path), expected, actual, context);
    } else if expected.items == [] && actual.items != [] {
      result := Fail(path, UnexpectedItems);
    } else {
      result := CompareListContent(path, expected, actual, context);
      if |expected.items| != |actual.items| {
        result := MergeResult(result, Fail(path, LengthMismatch));
      }
    }
  }

  method CompareListContent(path: Path, expected: Value, actual: Value, context: Context) returns (result: Verdict)
    requires expected.Array? && actual.Array?
    ensures result == ItemsVerdict(|expected.items|, path, expected, actual, context)
    decreases expected, 1, 0
  {
    result := Ok;
    for index := 0 to |expected.items|
      invariant result == ItemsVerdict(index, path, expected, actual, context)
    {
      var p := JoinPath(path, ShowNat(index));
      if index < |actual.items| {
        var item := CompareJson(p, expected.items[index], actual.items[index], context);
        result := MergeResult(result, item);
      } else if !context.MatcherIsDefined(p) {
        result := MergeResult(result, Fail(path, MissingItem));
      }
    }
  }

  /** Applies every rule of the list, and combines the results by its logic. */
  method CompareListsWithMatchingRules(path: Path, list: RuleList, expected: Value, actual: Value, context: Context)
    returns (verdict: Verdict)
    requires expected.Array? && actual.Array?
    ensures verdict == ListRulesVerdict(list, path, expected, actual, context)
    decreases expected, 3, |list.rules| + 1
  {
    if list.rules == [] {
      return Fail(path, NoMatcher);
    }
    var failures: seq<Mismatch> := [];
    var allFail := true;
    for i := 0 to |list.rules|
      invariant failures == RuleFailures(list, i, path, expected, actual, context)
      invariant allFail == AllRulesFail(list, i, path, expected, actual, context)
    {
      var result := CompareListsWithMatchingRule(list.rules[i], list.cascaded, path, expected, actual, context.Again(i));
      failures := Collect(failures, result);
      allFail := allFail && result.Err?;
    }
    if list.logic == Or && !allFail {
      verdict := Ok;
    } else {
      verdict := VerdictOf(failures);
    }
  }

  method CompareListsWithMatchingRule(rule: MatchingRule, cascaded: bool, path: Path, expected: Value, actual: Value, context: Context)
    returns (verdict: Verdict)
    requires expected.Array? && actual.Array?
    ensures verdict == ListRuleVerdict(rule, cascaded, path, expected, actual, context)
    decreases expected, 2, 0
  {
    var result: seq<Mismatch> := [];
    if expected.items != [] {
      if rule.ArrayContains? {
        var variants := if rule.variants == [] then DefaultVariants(|expected.items|) else rule.variants;
        result := FindVariants(variants, path, expected, actual, context);
      } else if rule.EachValue? {
        if !cascaded {
          result := References(path, rule.valueRules);
          var content := MatchListContents(path, expected, actual, context.CloneWith(EachValueCategory(path, rule.valueRules)));
          result := result + content;
        }
      } else {
        if !ListMatches(rule, expected.items, actual.items, cascaded) {
          result := [Mismatch(path, RuleMismatch)];
        }
        var content := MatchListContents(path, expected, actual, context);
        result := result + content;
      }
    }
    verdict := VerdictOf(result);
  }

  /** Looks for each variant among all the actual items. */
  method FindVariants(variants: seq<Variant>, path: Path, expected: Value, actual: Value, context: Context) returns (result: seq<Mismatch>)
    requires expected.Array? && actual.Array?
    ensures result == VariantMismatches(variants, |variants|, path, expected, actual, context)
    decreases expected, 1, 0
  {
    result := [];
    for i := 0 to |variants|
      invariant result == VariantMismatches(variants, i, path, expected, actual, context)
    {
      var index := variants[i].index;
      if index < |expected.items| {
        var found := FindItem(expected.items[index], actual.items, context.Again(i).CloneWith(variants[i].rules));
        if !found {
          result := result + [Mismatch(path, VariantNotFound)];
        }
      } else {
        result := result + [Mismatch(path, VariantMissing)];
      }
    }
  }

  method FindItem(item: Value, items: seq<Value>, context: Context) returns (found: bool)
    ensures found == SomeMatches(item, items, 0, context)
    decreases item, 6, 0
  {
    found := false;
    var j := 0;
    while j < |items| && !found
      invariant j <= |items|
      invariant SomeMatches(item, items, 0, context) == (found || SomeMatches(item, items, j, context))
    {
      var verdict := CompareJson([Root], item, items[j], context.Trying(items[j]));
      found := verdict.Ok?;
      j := j + 1;
    }
  }

  /** Compares the actual items with the expected list, resized with its first item. */
  method MatchListContents(path: Path, expected: Value, actual: Value, context: Context) returns (result: seq<Mismatch>)
    requires expected.Array? && actual.Array? && expected.items != []
    ensures result == ContentMismatches(ContentLength(expected, actual), path, expected, actual, context)
    decreases expected, 1, 0
  {
    var expectedList := expected.items;
    if |actual.items| > |expected.items| {
      expectedList := expectedList + seq(|actual.items| - |expected.items|, _ => expected.items[0]);
    }
    result := [];
    for index := 0 to |expectedList|
      invariant result == ContentMismatches(index, path, expected, actual, context)
    {
      var p := JoinPath(path, ShowNat(index));
      if index < |actual.items| {
        assert expectedList[index] == ItemFor(expected, index);
        var item := CompareJson(p, expectedList[index], actual.items[index], context);
        result := Collect(result, item);
      } else if !context.MatcherIsDefined(p) {
        result := result + [Mismatch(path, MissingItem)];
      }
    }
  }
}
