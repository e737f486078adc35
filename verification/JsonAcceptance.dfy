/** When the JSON comparator accepts: the collected mismatches, read as conditions. */
module JsonAcceptance {
  import opened Json
  import opened StringOrder
  import opened Paths
  import opened Rules
  import opened Contexts
  import opened RuleMatching
  import opened JsonVerdicts
  import opened JsonPathLaws

  predicate Accepts(path: Path, e: Value, a: Value, c: Context) {
    JsonVerdict(path, e, a, c).Ok?
  }

  // ---- Maps

  predicate EntryAccepted(key: string, path: Path, e: Value, a: Value, c: Context)
    requires e.Object? && a.Object? && key in e.entries
  {
    key in a.entries ==> Accepts(JoinPath(path, key), e.entries[key], a.entries[key], c.Under(key))
  }

  lemma {:induction false} EntriesAccepted(start: Verdict, keys: seq<string>, i: nat, path: Path, e: Value, a: Value, c: Context)
    requires e.Object? && a.Object? && i <= |keys| && forall k <- keys :: k in e.entries
    ensures EntriesVerdict(start, keys, i, path, e, a, c).Ok? <==>
      start.Ok? && forall j :: 0 <= j < i ==> EntryAccepted(keys[j], path, e, a, c)
  {
    if i > 0 {
      EntriesAccepted(start, keys, i - 1, path, e, a, c);
      assert keys[i - 1] in keys;
    }
  }

  // All the expected entries that are there are accepted.
  predicate AllEntriesAccepted(path: Path, e: Value, a: Value, c: Context)
    requires e.Object? && a.Object?
  {
    forall key | key in e.entries :: EntryAccepted(key, path, e, a, c)
  }

  lemma AllEntries(start: Verdict, keys: seq<string>, path: Path, e: Value, a: Value, c: Context)
    requires e.Object? && a.Object? && forall k :: k in keys <==> k in e.entries.Keys
    ensures EntriesVerdict(start, keys, |keys|, path, e, a, c).Ok? <==> start.Ok? && AllEntriesAccepted(path, e, a, c)
  {
    EntriesAccepted(start, keys, |keys|, path, e, a, c);
    if start.Ok? && forall j :: 0 <= j < |keys| ==> EntryAccepted(keys[j], path, e, a, c) {
      forall key | key in e.entries ensures EntryAccepted(key, path, e, a, c) {
        assert key in keys;
      }
    }
  }

  /** Without a rule, a map is accepted when its keys and its shared entries are. */
  lemma PlainMapAccepted(path: Path, e: Value, a: Value, c: Context)
    requires e.Object? && a.Object? && !c.MatcherIsDefined(path)
    ensures Accepts(path, e, a, c) <==>
      && (c.config == NoUnexpectedKeys && e.entries == map[] ==> a.entries == map[])
      && KeysVerdict(c, path, e.entries.Keys, a.entries.Keys).Ok? && AllEntriesAccepted(path, e, a, c)
  {
    assert JsonVerdict(path, e, a, c) == MapsVerdict(path, e, a, c);
    AllEntries(KeysVerdict(c, path, e.entries.Keys, a.entries.Keys), SortedKeys(e.entries.Keys), path, e, a, c);
  }

  predicate MapRulePasses(rule: MatchingRule, cascaded: bool, path: Path, e: Value, a: Value, c: Context)
    requires e.Object? && a.Object?
  {
    MapRuleVerdict(rule, cascaded, path, e, a, c).Ok?
  }

  // The first `i` rules accept the maps.
  predicate FirstMapRulesPass(list: RuleList, i: nat, path: Path, e: Value, a: Value, c: Context)
    requires e.Object? && a.Object? && i <= |list.rules|
  {
    forall j :: 0 <= j < i ==> MapRulePasses(list.rules[j], list.cascaded, path, e, a, c.Again(j))
  }

  lemma MapRulesStep(list: RuleList, i: nat, path: Path, e: Value, a: Value, c: Context)
    requires e.Object? && a.Object? && 0 < i <= |list.rules|
    ensures MapRulesVerdict(list, i, path, e, a, c).Ok? <==>
      MapRulesVerdict(list, i - 1, path, e, a, c).Ok? && MapRulePasses(list.rules[i - 1], list.cascaded, path, e, a, c.Again(i - 1))
  {
  }

  lemma FirstMapRulesStep(list: RuleList, i: nat, path: Path, e: Value, a: Value, c: Context)
    requires e.Object? && a.Object? && 0 < i <= |list.rules|
    ensures FirstMapRulesPass(list, i, path, e, a, c) <==>
      FirstMapRulesPass(list, i - 1, path, e, a, c) && MapRulePasses(list.rules[i - 1], list.cascaded, path, e, a, c.Again(i - 1))
  {
  }

  lemma {:induction false} MapRulesAccepted(list: RuleList, i: nat, path: Path, e: Value, a: Value, c: Context)
    requires e.Object? && a.Object? && i <= |list.rules|
    ensures MapRulesVerdict(list, i, path, e, a, c).Ok? <==> FirstMapRulesPass(list, i, path, e, a, c)
  {
    if i > 0 {
      MapRulesAccepted(list, i - 1, path, e, a, c);
      MapRulesStep(list, i, path, e, a, c);
      FirstMapRulesStep(list, i, path, e, a, c);
    }
  }

  /** The logic of a rule list is ignored for maps: all its rules have to pass, even with `Or`. */
  lemma RuledMapAccepted(path: Path, e: Value, a: Value, c: Context)
    requires e.Object? && a.Object? && c.MatcherIsDefined(path)
    ensures var list := c.SelectBestMatcher(path);
      Accepts(path, e, a, c) <==>
      && (c.config == NoUnexpectedKeys && e.entries == map[] ==> a.entries == map[])
      && forall i :: 0 <= i < |list.rules| ==> MapRulePasses(list.rules[i], list.cascaded, path, e, a, c.Again(i))
  {
    var list := c.SelectBestMatcher(path);
    assert JsonVerdict(path, e, a, c) == MapsVerdict(path, e, a, c);
    MapRulesAccepted(list, |list.rules|, path, e, a, c);
  }

  /** A rule that is no values rule accepts a map it accepts as a whole, with its keys and shared entries. */
  lemma MapRuleAccepted(rule: MatchingRule, cascaded: bool, path: Path, e: Value, a: Value, c: Context)
    requires e.Object? && a.Object? && (cascaded || !IsValuesMatcher(rule))
    ensures MapRulePasses(rule, cascaded, path, e, a, c) <==>
      && MapMatches(rule, e.entries, a.entries, cascaded)
      && KeysVerdict(c, path, e.entries.Keys, a.entries.Keys).Ok? && AllEntriesAccepted(path, e, a, c)
  {
    var whole := if MapMatches(rule, e.entries, a.entries, cascaded) then Ok else Fail(path, RuleMismatch);
    AllEntries(MergeResult(whole, KeysVerdict(c, path, e.entries.Keys, a.entries.Keys)), SortedKeys(e.entries.Keys), path, e, a, c);
  }

  // `Type` or `NotEmpty`, at the root of a body.
  const EITHER_CATEGORY := Category(BODY, [([Root], RuleList([Type, NotEmpty], Or, false))])

  lemma EitherIsSelected(c: Context)
    requires c.matchers == EITHER_CATEGORY
    ensures c.MatcherIsDefined([Root]) && c.SelectBestMatcher([Root]) == RuleList([Type, NotEmpty], Or, false)
    ensures !c.KeysAreMatched([Root])
  {
    assert WeightOf([Root], [Root], 0) == 1 && PathWeight([Root], [Root]) == 2;
    OneRule(c.matchers, [Root], c.first(Best([Root], c.turns)));
  }

  lemma NoKeysPass(c: Context)
    requires c.matchers == EITHER_CATEGORY
    ensures KeysVerdict(c, [Root], {}, {}).Ok?
  {
    var rules, keys := [Type, NotEmpty], SortedKeys({});
    EitherIsSelected(c);
    assert |RuleKeys(rules, 1, [Root], keys, c.foreign)| == 0;
    assert |RuleKeys(rules, 2, [Root], keys, c.foreign)| == 0;
    assert PlainKeys(c, [Root], {}, {}) == [];
  }

  predicate IsEmptyMap(v: Value) {
    v.Object? && v.entries == map[]
  }

  lemma EmptyMapsPass(rule: MatchingRule, e: Value, a: Value, c: Context)
    requires c.matchers == EITHER_CATEGORY && !IsValuesMatcher(rule) && IsEmptyMap(e) && IsEmptyMap(a)
    ensures MapRulePasses(rule, false, [Root], e, a, c) <==> MapMatches(rule, e.entries, a.entries, false)
  {
    assert e.entries.Keys == {} && a.entries.Keys == {};
    NoKeysPass(c);
    MapRuleAccepted(rule, false, [Root], e, a, c);
  }

  lemma SecondRuleRejects(path: Path, e: Value, a: Value, c: Context)
    requires e.Object? && a.Object? && c.MatcherIsDefined(path)
    requires var list := c.SelectBestMatcher(path);
      |list.rules| > 1 && !MapRulePasses(list.rules[1], list.cascaded, path, e, a, c.Again(1))
    ensures !Accepts(path, e, a, c)
  {
    RuledMapAccepted(path, e, a, c);
  }

  /** Two empty maps pass the first of two alternative rules and fail the second one, and are turned away. */
  lemma OrIsIgnoredForMaps(e: Value, a: Value, c: Context)
    requires c.matchers == EITHER_CATEGORY && IsEmptyMap(e) && IsEmptyMap(a)
    ensures c.SelectBestMatcher([Root]) == RuleList([Type, NotEmpty], Or, false)
    ensures MapRulePasses(Type, false, [Root], e, a, c.Again(0)) && !MapRulePasses(NotEmpty, false, [Root], e, a, c.Again(1))
    ensures !Accepts([Root], e, a, c)
  {
    EitherIsSelected(c);
    EmptyMapsPass(Type, e, a, c.Again(0));
    EmptyMapsPass(NotEmpty, e, a, c.Again(1));
    SecondRuleRejects([Root], e, a, c);
  }

  lemma FirstIsOfSmallestKey(entries: map<string, Value>, key: string)
    requires IsLeast(key, entries.Keys)
    ensures FirstValue(entries) == entries[key]
  {
    LeastUnique(entries.Keys, key, Least(entries.Keys));
  }

  // An actual entry is accepted for the expected one of the same key, or else for the first one.
  predicate AnyKeyAccepted(key: string, path: Path, e: Value, a: Value, c: Context)
    requires e.Object? && a.Object? && key in a.entries
  {
    && (key in e.entries ==> Accepts(JoinPath(path, key), e.entries[key], a.entries[key], c.Under(key)))
    && (key !in e.entries && e.entries.Keys != {} ==> Accepts(JoinPath(path, key), FirstValue(e.entries), a.entries[key], c.Under(key)))
  }

  lemma {:induction false} AnyKeysAccepted(start: Verdict, keys: seq<string>, i: nat, path: Path, e: Value, a: Value, c: Context)
    requires e.Object? && a.Object? && i <= |keys| && forall k <- keys :: k in a.entries
    ensures AnyKeyVerdict(start, keys, i, path, e, a, c).Ok? <==>
      start.Ok? && forall j :: 0 <= j < i ==> AnyKeyAccepted(keys[j], path, e, a, c)
  {
    if i > 0 {
      AnyKeysAccepted(start, keys, i - 1, path, e, a, c);
      assert keys[i - 1] in keys;
    }
  }

  predicate AllKeysAccepted(path: Path, e: Value, a: Value, c: Context)
    requires e.Object? && a.Object?
  {
    forall key | key in a.entries :: AnyKeyAccepted(key, path, e, a, c)
  }

  lemma AllKeys(start: Verdict, keys: seq<string>, path: Path, e: Value, a: Value, c: Context)
    requires e.Object? && a.Object? && forall k :: k in keys <==> k in a.entries.Keys
    ensures AnyKeyVerdict(start, keys, |keys|, path, e, a, c).Ok? <==> start.Ok? && AllKeysAccepted(path, e, a, c)
  {
    AnyKeysAccepted(start, keys, |keys|, path, e, a, c);
    if forall j :: 0 <= j < |keys| ==> AnyKeyAccepted(keys[j], path, e, a, c) {
      forall key | key in a.entries ensures AnyKeyAccepted(key, path, e, a, c) {
        assert key in keys;
      }
    }
  }

  /** Under a values rule that is not cascaded, a map is accepted exactly when each actual entry is accepted
    * for the expected entry of the same key, or for the one of the smallest key; missing keys never matter. */
  lemma ValuesRuleAccepted(rule: MatchingRule, path: Path, e: Value, a: Value, c: Context)
    requires e.Object? && a.Object? && rule.Values?
    ensures MapRulePasses(rule, false, path, e, a, c) <==> AllKeysAccepted(path, e, a, c)
    ensures e.entries == map[] ==> MapRulePasses(rule, false, path, e, a, c)
  {
    assert c.CloneWith(c.matchers) == c;
    AllKeys(Ok, SortedKeys(a.entries.Keys), path, e, a, c);
  }

  /** `EachValue` does the same under its own rules, which have to be resolved. */
  lemma EachValueMapAccepted(rule: MatchingRule, path: Path, e: Value, a: Value, c: Context)
    requires e.Object? && a.Object? && rule.EachValue?
    ensures MapRulePasses(rule, false, path, e, a, c) <==>
      && (forall i :: 0 <= i < |rule.valueRules| ==> rule.valueRules[i].Resolved?)
      && AllKeysAccepted(path, e, a, c.CloneWith(EachValueCategory(path, rule.valueRules)))
  {
    ReferencesEmpty(path, rule.valueRules);
    AllKeys(VerdictOf(References(path, rule.valueRules)), SortedKeys(a.entries.Keys), path, e, a,
      c.CloneWith(EachValueCategory(path, rule.valueRules)));
  }

  // ---- Lists

  predicate ItemAccepted(i: nat, path: Path, e: Value, a: Value, c: Context)
    requires e.Array? && a.Array? && i < |e.items|
  {
    var p := JoinPath(path, ShowNat(i));
    if i < |a.items| then Accepts(p, e.items[i], a.items[i], c) else c.MatcherIsDefined(p)
  }

  lemma ItemsStep(i: nat, path: Path, e: Value, a: Value, c: Context)
    requires e.Array? && a.Array? && 0 < i <= |e.items|
    ensures ItemsVerdict(i, path, e, a, c).Ok? <==> ItemsVerdict(i - 1, path, e, a, c).Ok? && ItemAccepted(i - 1, path, e, a, c)
  {
  }

  lemma {:induction false} ItemsAccepted(i: nat, path: Path, e: Value, a: Value, c: Context)
    requires e.Array? && a.Array? && i <= |e.items|
    ensures ItemsVerdict(i, path, e, a, c).Ok? <==> forall j :: 0 <= j < i ==> ItemAccepted(j, path, e, a, c)
  {
    if i > 0 {
      ItemsAccepted(i - 1, path, e, a, c);
      ItemsStep(i, path, e, a, c);
    }
  }

  /** Without a rule, lists of the same length are compared item by item. */
  lemma PlainListAccepted(path: Path, e: Value, a: Value, c: Context)
    requires e.Array? && a.Array? && !c.MatcherIsDefined(path)
    ensures Accepts(path, e, a, c) <==>
      |e.items| == |a.items| && forall i | 0 <= i < |e.items| :: ItemAccepted(i, path, e, a, c)
  {
    assert JsonVerdict(path, e, a, c) == ListsVerdict(path, e, a, c);
    ItemsAccepted(|e.items|, path, e, a, c);
  }

  predicate ListRulePasses(rule: MatchingRule, cascaded: bool, path: Path, e: Value, a: Value, c: Context)
    requires e.Array? && a.Array?
  {
    ListRuleVerdict(rule, cascaded, path, e, a, c).Ok?
  }

  lemma {:induction false} AllRulesFailAll(list: RuleList, i: nat, path: Path, e: Value, a: Value, c: Context)
    requires e.Array? && a.Array? && i <= |list.rules|
    ensures AllRulesFail(list, i, path, e, a, c) <==>
      forall j :: 0 <= j < i ==> !ListRulePasses(list.rules[j], list.cascaded, path, e, a, c.Again(j))
  {
    if i > 0 {
      AllRulesFailAll(list, i - 1, path, e, a, c);
      assert AllRulesFail(list, i, path, e, a, c) <==>
        AllRulesFail(list, i - 1, path, e, a, c) && !ListRulePasses(list.rules[i - 1], list.cascaded, path, e, a, c.Again(i - 1));
    }
  }

  lemma RuleFailuresStep(list: RuleList, i: nat, path: Path, e: Value, a: Value, c: Context)
    requires e.Array? && a.Array? && 0 < i <= |list.rules|
    ensures |RuleFailures(list, i, path, e, a, c)| == 0 <==>
      |RuleFailures(list, i - 1, path, e, a, c)| == 0 && ListRulePasses(list.rules[i - 1], list.cascaded, path, e, a, c.Again(i - 1))
  {
    ListRuleJustified(list.rules[i - 1], list.cascaded, path, e, a, c.Again(i - 1));
  }

  predicate FirstRulesPass(list: RuleList, i: nat, path: Path, e: Value, a: Value, c: Context)
    requires e.Array? && a.Array? && i <= |list.rules|
  {
    forall j | 0 <= j < i :: ListRulePasses(list.rules[j], list.cascaded, path, e, a, c.Again(j))
  }

  lemma FirstRulesStep(list: RuleList, i: nat, path: Path, e: Value, a: Value, c: Context)
    requires e.Array? && a.Array? && 0 < i <= |list.rules|
    ensures FirstRulesPass(list, i, path, e, a, c) <==>
      FirstRulesPass(list, i - 1, path, e, a, c) && ListRulePasses(list.rules[i - 1], list.cascaded, path, e, a, c.Again(i - 1))
  {
  }

  lemma {:induction false} RuleFailuresEmpty(list: RuleList, i: nat, path: Path, e: Value, a: Value, c: Context)
    requires e.Array? && a.Array? && i <= |list.rules|
    ensures |RuleFailures(list, i, path, e, a, c)| == 0 <==> FirstRulesPass(list, i, path, e, a, c)
  {
    if i > 0 {
      RuleFailuresEmpty(list, i - 1, path, e, a, c);
      RuleFailuresStep(list, i, path, e, a, c);
      FirstRulesStep(list, i, path, e, a, c);
    }
  }

  /** Lists pass a list of rules when there are rules and all of them pass, or any with `Or`. */
  lemma ListRulesAccepted(list: RuleList, path: Path, e: Value, a: Value, c: Context)
    requires e.Array? && a.Array?
    ensures ListRulesVerdict(list, path, e, a, c).Ok? <==>
      && list.rules != []
      && (list.logic == And ==> forall i :: 0 <= i < |list.rules| ==> ListRulePasses(list.rules[i], list.cascaded, path, e, a, c.Again(i)))
      && (list.logic == Or ==> exists i :: 0 <= i < |list.rules| && ListRulePasses(list.rules[i], list.cascaded, path, e, a, c.Again(i)))
  {
    var n := |list.rules|;
    AllRulesFailAll(list, n, path, e, a, c);
    RuleFailuresEmpty(list, n, path, e, a, c);
    if list.rules != [] && list.logic == Or && AllRulesFail(list, n, path, e, a, c) {
      assert !ListRulePasses(list.rules[0], list.cascaded, path, e, a, c.Again(0));
    }
  }

  // An actual item is accepted for the expected one, or for the first one past the end; a missing item
  // is accepted where a rule is defined.
  predicate ContentAccepted(i: nat, path: Path, e: Value, a: Value, c: Context)
    requires e.Array? && a.Array? && e.items != []
  {
    var p := JoinPath(path, ShowNat(i));
    if i < |a.items| then Accepts(p, ItemFor(e, i), a.items[i], c) else c.MatcherIsDefined(p)
  }

  lemma ContentStep(i: nat, path: Path, e: Value, a: Value, c: Context)
    requires e.Array? && a.Array? && e.items != [] && 0 < i <= ContentLength(e, a)
    ensures |ContentMismatches(i, path, e, a, c)| == 0 <==>
      |ContentMismatches(i - 1, path, e, a, c)| == 0 && ContentAccepted(i - 1, path, e, a, c)
  {
    if i - 1 < |a.items| {
      CompareJustified(JoinPath(path, ShowNat(i - 1)), ItemFor(e, i - 1), a.items[i - 1], c);
    }
  }

  predicate FirstContentsAccepted(i: nat, path: Path, e: Value, a: Value, c: Context)
    requires e.Array? && a.Array? && e.items != []
  {
    forall j | 0 <= j < i :: ContentAccepted(j, path, e, a, c)
  }

  ghost predicate NoContentMismatch(i: nat, path: Path, e: Value, a: Value, c: Context)
    requires e.Array? && a.Array? && e.items != [] && i <= ContentLength(e, a)
  {
    |ContentMismatches(i, path, e, a, c)| == 0
  }

  lemma FirstContentsStep(i: nat, path: Path, e: Value, a: Value, c: Context)
    requires e.Array? && a.Array? && e.items != [] && 0 < i <= ContentLength(e, a)
    requires NoContentMismatch(i - 1, path, e, a, c) <==> FirstContentsAccepted(i - 1, path, e, a, c)
    ensures NoContentMismatch(i, path, e, a, c) <==> FirstContentsAccepted(i, path, e, a, c)
  {
    ContentStep(i, path, e, a, c);
    if NoContentMismatch(i, path, e, a, c) {
      forall j | 0 <= j < i ensures ContentAccepted(j, path, e, a, c) {
        assert j < i - 1 || j == i - 1;
      }
    } else if FirstContentsAccepted(i - 1, path, e, a, c) {
      assert !ContentAccepted(i - 1, path, e, a, c);
    }
  }

  lemma {:induction false} ContentsAccepted(i: nat, path: Path, e: Value, a: Value, c: Context)
    requires e.Array? && a.Array? && e.items != [] && i <= ContentLength(e, a)
    ensures NoContentMismatch(i, path, e, a, c) <==> FirstContentsAccepted(i, path, e, a, c)
  {
    if i > 0 {
      ContentsAccepted(i - 1, path, e, a, c);
      FirstContentsStep(i, path, e, a, c);
    }
  }

  /** A rule for items accepts a list it accepts as a whole, with its contents. */
  lemma ListRuleAccepted(rule: MatchingRule, cascaded: bool, path: Path, e: Value, a: Value, c: Context)
    requires e.Array? && a.Array? && e.items != [] && !rule.ArrayContains? && !rule.EachValue?
    ensures ListRulePasses(rule, cascaded, path, e, a, c) <==>
      && ListMatches(rule, e.items, a.items, cascaded)
      && FirstContentsAccepted(ContentLength(e, a), path, e, a, c)
  {
    ContentsAccepted(ContentLength(e, a), path, e, a, c);
  }

  /** `EachValue` accepts a list when its rules are resolved and, as the only rules, accept the contents. */
  lemma EachValueListAccepted(rule: MatchingRule, path: Path, e: Value, a: Value, c: Context)
    requires e.Array? && a.Array? && e.items != [] && rule.EachValue?
    ensures ListRulePasses(rule, true, path, e, a, c)
    ensures ListRulePasses(rule, false, path, e, a, c) <==>
      && (forall i :: 0 <= i < |rule.valueRules| ==> rule.valueRules[i].Resolved?)
      && FirstContentsAccepted(ContentLength(e, a), path, e, a, c.CloneWith(EachValueCategory(path, rule.valueRules)))
  {
    ReferencesEmpty(path, rule.valueRules);
    ContentsAccepted(ContentLength(e, a), path, e, a, c.CloneWith(EachValueCategory(path, rule.valueRules)));
  }

  // ---- Variants

  lemma {:induction false} SomeMatchesExactly(item: Value, items: seq<Value>, j: nat, c: Context)
    requires j <= |items|
    ensures SomeMatches(item, items, j, c) <==> exists k :: j <= k < |items| && Accepts([Root], item, items[k], c.Trying(items[k]))
    decreases |items| - j
  {
    if j < |items| {
      SomeMatchesExactly(item, items, j + 1, c);
    }
  }

  // The variant names an expected item, and some actual item matches it under the rules of the variant.
  predicate VariantFound(variant: Variant, e: Value, a: Value, c: Context)
    requires e.Array? && a.Array?
  {
    variant.index < |e.items|
    && exists item <- a.items :: Accepts([Root], e.items[variant.index], item, c.CloneWith(variant.rules).Trying(item))
  }

  lemma {:induction false} VariantsFound(variants: seq<Variant>, i: nat, path: Path, e: Value, a: Value, c: Context)
    requires e.Array? && a.Array? && i <= |variants|
    ensures |VariantMismatches(variants, i, path, e, a, c)| == 0 <==>
      forall j :: 0 <= j < i ==> VariantFound(variants[j], e, a, c.Again(j))
  {
    if i > 0 {
      var variant := variants[i - 1];
      VariantsFound(variants, i - 1, path, e, a, c);
      if variant.index < |e.items| {
        SomeMatchesExactly(e.items[variant.index], a.items, 0, c.Again(i - 1).CloneWith(variant.rules));
      }
    }
  }

  /** `ArrayContains` with variants accepts exactly when each of them is found. */
  lemma ArrayContainsExactly(rule: MatchingRule, cascaded: bool, path: Path, e: Value, a: Value, c: Context)
    requires e.Array? && a.Array? && e.items != [] && rule.ArrayContains? && rule.variants != []
    ensures ListRulePasses(rule, cascaded, path, e, a, c) <==>
      forall i :: 0 <= i < |rule.variants| ==> VariantFound(rule.variants[i], e, a, c.Again(i))
  {
    VariantsFound(rule.variants, |rule.variants|, path, e, a, c);
  }

  /** So the order of the actual items and how often they occur do not matter, and more items do no harm. */
  lemma ArrayContainsIsMonotone(rule: MatchingRule, cascaded: bool, path: Path, e: Value, a: Value, b: Value, c: Context)
    requires e.Array? && a.Array? && b.Array? && rule.ArrayContains?
    requires forall item <- a.items :: item in b.items
    requires ListRulePasses(rule, cascaded, path, e, a, c)
    ensures ListRulePasses(rule, cascaded, path, e, b, c)
  {
    if e.items != [] {
      var variants := if rule.variants == [] then DefaultVariants(|e.items|) else rule.variants;
      VariantsFound(variants, |variants|, path, e, a, c);
      VariantsFound(variants, |variants|, path, e, b, c);
      forall i | 0 <= i < |variants| ensures VariantFound(variants[i], e, b, c.Again(i)) {
        assert VariantFound(variants[i], e, a, c.Again(i));
      }
    }
  }

  lemma ArrayContainsIgnoresOrder(rule: MatchingRule, cascaded: bool, path: Path, e: Value, a: Value, b: Value, c: Context)
    requires e.Array? && a.Array? && b.Array? && rule.ArrayContains?
    requires multiset(a.items) == multiset(b.items)
    ensures ListRulePasses(rule, cascaded, path, e, a, c) <==> ListRulePasses(rule, cascaded, path, e, b, c)
  {
    assert forall item <- a.items :: item in multiset(a.items);
    assert forall item <- b.items :: item in multiset(b.items);
    if ListRulePasses(rule, cascaded, path, e, a, c) {
      ArrayContainsIsMonotone(rule, cascaded, path, e, a, b, c);
    } else if ListRulePasses(rule, cascaded, path, e, b, c) {
      ArrayContainsIsMonotone(rule, cascaded, path, e, b, a, c);
    }
  }
}
