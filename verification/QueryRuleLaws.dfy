/** When the values of a parameter with a matching rule are accepted. */
module QueryRuleLaws {
  import opened Json
  import opened Paths
  import opened Rules
  import opened Contexts
  import opened RuleMatching
  import opened TypeRules
  import opened QueryRules
  import opened QueryMatching

  // ---- What acceptance means, without the order in which mismatches are found

  // The rules at the path of the value accept it, or the two are equal where there are none.
  predicate ValuePasses(path: Path, e: string, a: string, c: Context) {
    var p := JoinPath(path, "0");
    if !c.MatcherIsDefined(p) then e == a else
      var list := c.SelectBestMatcher(p);
      list.rules != [] && Decides(list.logic, StringResults(list, e, a, c.foreign))
  }

  // All of the results, or any of them.
  predicate Decides(logic: RuleLogic, results: seq<bool>) {
    if logic == And then false !in results else true in results
  }

  // An actual value is accepted for the expected one, or for the first one past the end; a missing value is
  // accepted where a rule is defined.
  predicate ContentPasses(i: nat, path: Path, e: seq<string>, a: seq<string>, c: Context)
    requires |e| > 0
  {
    var p := JoinPath(path, ShowNat(i));
    if i < |a| then ValuePasses(p, FilledItem(e, i), a[i], c) else c.MatcherIsDefined(p)
  }

  predicate FirstContentsPass(n: nat, path: Path, e: seq<string>, a: seq<string>, c: Context)
    requires |e| > 0
  {
    forall i | 0 <= i < n :: ContentPasses(i, path, e, a, c)
  }

  // The expected value is there, and one of the actual values is accepted for it.
  predicate VariantPasses(variant: Variant, e: seq<string>, a: seq<string>, c: Context) {
    variant.index < |e| && exists j :: 0 <= j < |a| && ValuePasses([Root], e[variant.index], a[j], c.CloneWith(variant.rules).Trying(String(a[j])))
  }

  predicate FirstVariantsPass(variants: seq<Variant>, n: nat, e: seq<string>, a: seq<string>, c: Context)
    requires n <= |variants|
  {
    forall i | 0 <= i < n :: VariantPasses(variants[i], e, a, c.Again(i))
  }

  predicate ContainsPasses(given: seq<Variant>, e: seq<string>, a: seq<string>, c: Context) {
    var variants := if given == [] then DefaultVariants(|e|) else given;
    FirstVariantsPass(variants, |variants|, e, a, c)
  }

  predicate EachPasses(rules: seq<RuleOrReference>, path: Path, e: seq<string>, a: seq<string>, c: Context)
    requires |e| > 0
  {
    && (forall i :: 0 <= i < |rules| ==> rules[i].Resolved?)
    && FirstContentsPass(FilledLength(|e|, |a|), path, e, a, c.CloneWith(EachValueCategory(path, rules)))
  }

  // No expected values are a match for anything.
  predicate RulePasses(rule: MatchingRule, cascaded: bool, path: Path, e: seq<string>, a: seq<string>, c: Context) {
    if |e| == 0 then true
    else if rule.ArrayContains? then ContainsPasses(rule.variants, e, a, c)
    else if rule.EachValue? then cascaded || EachPasses(rule.valueRules, path, e, a, c)
    else ListMatches(rule, e, a, cascaded) && FirstContentsPass(FilledLength(|e|, |a|), path, e, a, c)
  }

  predicate RulesPass(list: RuleList, path: Path, e: seq<string>, a: seq<string>, c: Context) {
    && |list.rules| > 0
    && (list.logic == And ==> forall i :: 0 <= i < |list.rules| ==> RulePasses(list.rules[i], list.cascaded, path, e, a, c.Again(i)))
    && (list.logic == Or ==> exists i :: 0 <= i < |list.rules| && RulePasses(list.rules[i], list.cascaded, path, e, a, c.Again(i)))
  }

  // ---- The comparator decides just that

  lemma ValueExactly(path: Path, e: string, a: string, c: Context)
    ensures |ParameterReasons(path, e, a, 0, c)| == 0 <==> ValuePasses(path, e, a, c)
  {
    var p := JoinPath(path, ShowNat(0));
    assert ShowNat(0) == "0";
    var list := c.SelectBestMatcher(p);
    var results := StringResults(list, e, a, c.foreign);
    CombinedExactly(p, list.logic, results);
    assert |results| == 0 <==> list.rules == [];
  }

  // Nothing is wrong with the first `n` values.
  predicate NoContentFails(n: nat, path: Path, e: seq<string>, a: seq<string>, c: Context)
    requires |e| > 0
  {
    |ContentReasons(n, path, e, a, c)| == 0
  }

  lemma {:induction false} ContentsExactly(n: nat, path: Path, e: seq<string>, a: seq<string>, c: Context)
    requires |e| > 0
    ensures NoContentFails(n, path, e, a, c) <==> FirstContentsPass(n, path, e, a, c)
  {
    if n > 0 {
      ContentsExactly(n - 1, path, e, a, c);
      ContentExactly(n - 1, path, e, a, c);
      NextContentPasses(n - 1, path, e, a, c);
    }
  }

  lemma ContentExactly(i: nat, path: Path, e: seq<string>, a: seq<string>, c: Context)
    requires |e| > 0
    ensures NoContentFails(i + 1, path, e, a, c) <==> NoContentFails(i, path, e, a, c) && ContentPasses(i, path, e, a, c)
  {
    if i < |a| {
      ValueExactly(JoinPath(path, ShowNat(i)), FilledItem(e, i), a[i], c);
    }
  }

  lemma NextContentPasses(n: nat, path: Path, e: seq<string>, a: seq<string>, c: Context)
    requires |e| > 0
    ensures FirstContentsPass(n + 1, path, e, a, c) <==> FirstContentsPass(n, path, e, a, c) && ContentPasses(n, path, e, a, c)
  {
  }

  lemma {:induction false} SomeMatchesExactly(value: string, a: seq<string>, n: nat, c: Context)
    requires n <= |a|
    ensures SomeMatches(value, a, n, c) <==> exists j :: 0 <= j < n && ValuePasses([Root], value, a[j], c.Trying(String(a[j])))
  {
    if n > 0 {
      SomeMatchesExactly(value, a, n - 1, c);
      ValueExactly([Root], value, a[n - 1], c.Trying(String(a[n - 1])));
    }
  }

  lemma VariantExactly(variant: Variant, e: seq<string>, a: seq<string>, c: Context)
    requires variant.index < |e|
    ensures SomeMatches(e[variant.index], a, |a|, c.CloneWith(variant.rules)) <==> VariantPasses(variant, e, a, c)
  {
    SomeMatchesExactly(e[variant.index], a, |a|, c.CloneWith(variant.rules));
  }

  lemma {:induction false} VariantsExactly(variants: seq<Variant>, n: nat, e: seq<string>, a: seq<string>, c: Context)
    requires n <= |variants|
    ensures |VariantReasons(variants, n, e, a, c)| == 0 <==> FirstVariantsPass(variants, n, e, a, c)
  {
    if n > 0 {
      VariantsExactly(variants, n - 1, e, a, c);
      NextVariantPasses(variants, n - 1, e, a, c);
      if variants[n - 1].index < |e| {
        VariantExactly(variants[n - 1], e, a, c.Again(n - 1));
      }
    }
  }

  lemma NextVariantPasses(variants: seq<Variant>, n: nat, e: seq<string>, a: seq<string>, c: Context)
    requires n < |variants|
    ensures FirstVariantsPass(variants, n + 1, e, a, c) <==>
      FirstVariantsPass(variants, n, e, a, c) && VariantPasses(variants[n], e, a, c.Again(n))
  {
  }

  lemma ContainsExactly(rule: MatchingRule, cascaded: bool, path: Path, e: seq<string>, a: seq<string>, c: Context)
    requires |e| > 0 && rule.ArrayContains?
    ensures |ListReasons(rule, cascaded, path, e, a, c)| == 0 <==> ContainsPasses(rule.variants, e, a, c)
  {
    var variants := if rule.variants == [] then DefaultVariants(|e|) else rule.variants;
    VariantsExactly(variants, |variants|, e, a, c);
  }

  lemma EachExactly(rule: MatchingRule, path: Path, e: seq<string>, a: seq<string>, c: Context)
    requires |e| > 0 && rule.EachValue?
    ensures |ListReasons(rule, false, path, e, a, c)| == 0 <==> EachPasses(rule.valueRules, path, e, a, c)
  {
    ReferencesEmpty([], rule.valueRules);
    ContentsExactly(FilledLength(|e|, |a|), path, e, a, c.CloneWith(EachValueCategory(path, rule.valueRules)));
  }

  lemma RuleExactly(rule: MatchingRule, cascaded: bool, path: Path, e: seq<string>, a: seq<string>, c: Context)
    ensures |ListReasons(rule, cascaded, path, e, a, c)| == 0 <==> RulePasses(rule, cascaded, path, e, a, c)
  {
    if |e| > 0 {
      if rule.ArrayContains? {
        ContainsExactly(rule, cascaded, path, e, a, c);
      } else if rule.EachValue? {
        EachExactly(rule, path, e, a, c);
      } else {
        ContentsExactly(FilledLength(|e|, |a|), path, e, a, c);
      }
    }
  }

  lemma {:induction false} JoinedExactly(results: seq<seq<Reason>>)
    ensures |Joined(results)| == 0 <==> forall i :: 0 <= i < |results| ==> |results[i]| == 0
  {
    if |results| > 0 {
      JoinedExactly(results[..|results| - 1]);
    }
  }

  lemma ResultExactly(list: RuleList, i: nat, path: Path, e: seq<string>, a: seq<string>, c: Context)
    requires i < |list.rules|
    ensures |RuleResults(list, path, e, a, c)[i]| == 0 <==> RulePasses(list.rules[i], list.cascaded, path, e, a, c.Again(i))
  {
    RuleExactly(list.rules[i], list.cascaded, path, e, a, c.Again(i));
  }

  /** The values of a parameter with rules are accepted exactly when all rules, or any with `Or`, accept them. */
  lemma RuledExactly(list: RuleList, path: Path, e: seq<string>, a: seq<string>, c: Context)
    ensures |RuledReasons(list, path, e, a, c)| == 0 <==> RulesPass(list, path, e, a, c)
  {
    var results := RuleResults(list, path, e, a, c);
    JoinedExactly(results);
    forall i | 0 <= i < |list.rules|
      ensures |results[i]| == 0 <==> RulePasses(list.rules[i], list.cascaded, path, e, a, c.Again(i))
    {
      ResultExactly(list, i, path, e, a, c);
    }
  }

  // ---- A rule for all the parameters

  // The one rule of the query, at the root.
  function OnlyRule(rule: MatchingRule): Category {
    Category(QUERY, [([Root], RuleList([rule], And, false))])
  }

  // It is selected everywhere, and nowhere does it count as inherited.
  lemma OnlyRuleEverywhere(c: Context, rule: MatchingRule, path: Path)
    requires c.matchers == OnlyRule(rule) && [Root] <= path
    ensures c.MatcherIsDefined(path) && c.SelectBestMatcher(path) == RuleList([rule], And, false)
  {
    var rules := c.matchers.rules;
    assert WeightOf([Root], path, 0) == 1 && PathWeight([Root], path) == 2;
    assert Filtered(rules[1..], (pattern, list) => MatchesPath(pattern, path)) == [];
  }

  // What a rule wants of all the values together.
  predicate ListFits(rule: MatchingRule, e: seq<string>, a: seq<string>) {
    match rule
    case Equality => e == a
    case NotEmpty => |a| > 0
    case Null => false
    case StatusCode => false
    case _ => WithinBounds(rule, |a|)
  }

  // What it wants of each value.
  predicate TextFits(rule: MatchingRule, e: string, a: string, foreign: Foreign) {
    match rule
    case Equality => a == e
    case Values => a == e
    case Boolean => a in {"true", "false"}
    case NotEmpty => |a| > 0
    case Type => true
    case MinType(_) => true
    case MaxType(_) => true
    case MinMaxType(_, _) => true
    case EachKey(_) => false
    case Null => false
    case _ => foreign.acceptsString(a, rule)
  }

  lemma TextFitsExactly(rule: MatchingRule, e: string, a: string, foreign: Foreign)
    requires !rule.ArrayContains? && !rule.EachValue?
    ensures StringMatches(rule, e, a, false, foreign) <==> TextFits(rule, e, a, foreign)
  {
  }

  lemma OneContentExactly(rule: MatchingRule, i: nat, path: Path, e: seq<string>, a: seq<string>, c: Context)
    requires c.matchers == OnlyRule(rule) && [Root] <= path && |e| > 0 && !rule.ArrayContains? && !rule.EachValue?
    ensures ContentPasses(i, path, e, a, c) <==> i < |a| ==> TextFits(rule, FilledItem(e, i), a[i], c.foreign)
  {
    var p := JoinPath(path, ShowNat(i));
    OnlyRuleEverywhere(c, rule, p);
    OnlyRuleEverywhere(c, rule, JoinPath(p, "0"));
    if i < |a| {
      TextFitsExactly(rule, FilledItem(e, i), a[i], c.foreign);
      assert StringResults(RuleList([rule], And, false), FilledItem(e, i), a[i], c.foreign)
        == [StringMatches(rule, FilledItem(e, i), a[i], false, c.foreign)];
    }
  }

  /** A single rule for all the parameters wants something of the values together and of each of them; or nothing, where
    * no values are expected. */
  lemma OnlyRuleExactly(key: string, rule: MatchingRule, e: seq<string>, a: seq<string>, c: Context)
    requires c.matchers == OnlyRule(rule) && !rule.ArrayContains? && !rule.EachValue?
    ensures |ValuesReasons(key, e, a, c)| == 0 <==>
      |e| == 0 || (ListFits(rule, e, a) && forall i | 0 <= i < |a| :: TextFits(rule, FilledItem(e, i), a[i], c.foreign))
  {
    var path, list, d := JoinPath([Root], key), RuleList([rule], And, false), c.Again(0);
    OnlyRuleEverywhere(c, rule, path);
    RuledExactly(list, path, e, a, c);
    assert RulesPass(list, path, e, a, c) <==> RulePasses(rule, false, path, e, a, d) by {
      assert list.rules[0] == rule;
    }
    if |e| > 0 {
      forall i | 0 <= i < FilledLength(|e|, |a|)
        ensures ContentPasses(i, path, e, a, d) <==> i < |a| ==> TextFits(rule, FilledItem(e, i), a[i], c.foreign)
      {
        OneContentExactly(rule, i, path, e, a, d);
      }
      ContentsFit(rule, path, e, a, d);
    }
  }

  lemma ContentsFit(rule: MatchingRule, path: Path, e: seq<string>, a: seq<string>, c: Context)
    requires |e| > 0
    requires forall i :: 0 <= i < FilledLength(|e|, |a|) ==>
      (ContentPasses(i, path, e, a, c) <==> i < |a| ==> TextFits(rule, FilledItem(e, i), a[i], c.foreign))
    ensures FirstContentsPass(FilledLength(|e|, |a|), path, e, a, c) <==>
      forall i | 0 <= i < |a| :: TextFits(rule, FilledItem(e, i), a[i], c.foreign)
  {
    assert FilledLength(|e|, |a|) >= |a|;
    if FirstContentsPass(FilledLength(|e|, |a|), path, e, a, c) {
      forall i | 0 <= i < |a| ensures TextFits(rule, FilledItem(e, i), a[i], c.foreign) {
        assert ContentPasses(i, path, e, a, c);
      }
    }
  }

  /** A rule with bounds is met by as many values as it asks for, whatever they are, or where no values are expected. */
  lemma BoundsExactly(key: string, rule: MatchingRule, e: seq<string>, a: seq<string>, c: Context)
    requires c.matchers == OnlyRule(rule) && IsTypeMatcher(rule)
    ensures |ValuesReasons(key, e, a, c)| == 0 <==> |e| == 0 || WithinBounds(rule, |a|)
  {
    OnlyRuleExactly(key, rule, e, a, c);
  }
}
