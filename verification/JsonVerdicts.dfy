/** What the JSON comparator decides for every context: the rules are looked up at every path. Its list comparator
  * is the one of `QueryRules`, with the recursion into the items where that compares two values. */
module JsonVerdicts {
  import opened Json
  import opened StringOrder
  import opened Paths
  import opened Rules
  import opened Contexts
  import opened RuleMatching

  // `compare_json`
  function JsonVerdict(path: Path, e: Value, a: Value, c: Context): Verdict
    decreases e, 5, 0
  {
    if e.Object? then (if a.Object? then MapsVerdict(path, e, a, c) else Fail(path, TypeMismatch))
    else if e.Array? then (if a.Array? then ListsVerdict(path, e, a, c) else Fail(path, TypeMismatch))
    else ValuesVerdict(path, e, a, c)
  }

  // `compare_values`
  function ValuesVerdict(path: Path, e: Value, a: Value, c: Context): Verdict {
    if c.MatcherIsDefined(path) then MatchValues(path, c.SelectBestMatcher(path), e, a, c.foreign)
    else if e == a then Ok
    else Fail(path, ValueMismatch)
  }

  // ---- Maps

  // `compare_maps`
  function MapsVerdict(path: Path, e: Value, a: Value, c: Context): Verdict
    requires e.Object? && a.Object?
    decreases e, 4, 0
  {
    if e.entries == map[] && c.config == NoUnexpectedKeys && a.entries != map[] then Fail(path, UnexpectedEntries)
    else if c.MatcherIsDefined(path) then
      var list := c.SelectBestMatcher(path);
      MapRulesVerdict(list, |list.rules|, path, e, a, c)
    else
      var keys := SortedKeys(e.entries.Keys);
      EntriesVerdict(KeysVerdict(c, path, e.entries.Keys, a.entries.Keys), keys, |keys|, path, e, a, c)
  }

  // The first `i` rules, all of which must pass whatever the logic of the list is.
  function MapRulesVerdict(list: RuleList, i: nat, path: Path, e: Value, a: Value, c: Context): Verdict
    requires e.Object? && a.Object? && i <= |list.rules|
    decreases e, 3, i
  {
    if i == 0 then Ok else
      MergeResult(MapRulesVerdict(list, i - 1, path, e, a, c), MapRuleVerdict(list.rules[i - 1], list.cascaded, path, e, a, c.Again(i - 1)))
  }

  // `compare_maps_with_matchingrule`
  function MapRuleVerdict(rule: MatchingRule, cascaded: bool, path: Path, e: Value, a: Value, c: Context): Verdict
    requires e.Object? && a.Object?
    decreases e, 2, 0
  {
    if !cascaded && IsValuesMatcher(rule) then
      var keys := SortedKeys(a.entries.Keys);
      if rule.EachValue? then
        AnyKeyVerdict(VerdictOf(References(path, rule.valueRules)), keys, |keys|, path, e, a,
          c.CloneWith(EachValueCategory(path, rule.valueRules)))
      else AnyKeyVerdict(Ok, keys, |keys|, path, e, a, c.CloneWith(c.matchers))
    else
      var whole := if MapMatches(rule, e.entries, a.entries, cascaded) then Ok else Fail(path, RuleMismatch);
      var keys := SortedKeys(e.entries.Keys);
      EntriesVerdict(MergeResult(whole, KeysVerdict(c, path, e.entries.Keys, a.entries.Keys)), keys, |keys|, path, e, a, c)
  }

  // The entries of the first `i` expected keys that are there.
  function EntriesVerdict(start: Verdict, keys: seq<string>, i: nat, path: Path, e: Value, a: Value, c: Context): Verdict
    requires e.Object? && a.Object? && i <= |keys| && forall k <- keys :: k in e.entries
    decreases e, 1, i
  {
    if i == 0 then start else
      var so := EntriesVerdict(start, keys, i - 1, path, e, a, c);
      var key := keys[i - 1];
      if key in a.entries then MergeResult(so, JsonVerdict(JoinPath(path, key), e.entries[key], a.entries[key], c.Under(key))) else so
  }

  // `expected.values().next()`
  function FirstValue(entries: map<string, Value>): Value
    requires entries.Keys != {}
  {
    entries[Least(entries.Keys)]
  }

  // The entries of the first `i` actual keys.
  function AnyKeyVerdict(start: Verdict, keys: seq<string>, i: nat, path: Path, e: Value, a: Value, c: Context): Verdict
    requires e.Object? && a.Object? && i <= |keys| && forall k <- keys :: k in a.entries
    decreases e, 1, i
  {
    if i == 0 then start else
      var so := AnyKeyVerdict(start, keys, i - 1, path, e, a, c);
      var key := keys[i - 1];
      if key in e.entries then
        MergeResult(so, JsonVerdict(JoinPath(path, key), e.entries[key], a.entries[key], c.Under(key)))
      else if e.entries.Keys != {} then
        MergeResult(so, JsonVerdict(JoinPath(path, key), FirstValue(e.entries), a.entries[key], c.Under(key)))
      else so
  }

  // ---- Lists

  // `compare_lists`
  function ListsVerdict(path: Path, e: Value, a: Value, c: Context): Verdict
    requires e.Array? && a.Array?
    decreases e, 4, 0
  {
    if c.MatcherIsDefined(path) then ListRulesVerdict(c.SelectBestMatcher(path), path, e, a, c)
    else if e.items == [] && a.items != [] then Fail(path, UnexpectedItems)
    else
      var content := ItemsVerdict(|e.items|, path, e, a, c);
      if |e.items| != |a.items| then MergeResult(content, Fail(path, LengthMismatch)) else content
  }

  // The first `i` items (`compare_list_content`).
  function ItemsVerdict(i: nat, path: Path, e: Value, a: Value, c: Context): Verdict
    requires e.Array? && a.Array? && i <= |e.items|
    decreases e, 1, i
  {
    if i == 0 then Ok else
      var so := ItemsVerdict(i - 1, path, e, a, c);
      var p := JoinPath(path, ShowNat(i - 1));
      if i - 1 < |a.items| then MergeResult(so, JsonVerdict(p, e.items[i - 1], a.items[i - 1], c))
      else if !c.MatcherIsDefined(p) then MergeResult(so, Fail(path, MissingItem))
      else so
  }

  // `compare_lists_with_matchingrules`
  function ListRulesVerdict(list: RuleList, path: Path, e: Value, a: Value, c: Context): Verdict
    requires e.Array? && a.Array?
    decreases e, 3, |list.rules| + 1
  {
    if list.rules == [] then Fail(path, NoMatcher)
    else if list.logic == Or && !AllRulesFail(list, |list.rules|, path, e, a, c) then Ok
    else VerdictOf(RuleFailures(list, |list.rules|, path, e, a, c))
  }

  function RuleFailures(list: RuleList, i: nat, path: Path, e: Value, a: Value, c: Context): seq<Mismatch>
    requires e.Array? && a.Array? && i <= |list.rules|
    decreases e, 3, i
  {
    if i == 0 then [] else
      Collect(RuleFailures(list, i - 1, path, e, a, c), ListRuleVerdict(list.rules[i - 1], list.cascaded, path, e, a, c.Again(i - 1)))
  }

  predicate AllRulesFail(list: RuleList, i: nat, path: Path, e: Value, a: Value, c: Context)
    requires e.Array? && a.Array? && i <= |list.rules|
    decreases e, 3, i
  {
    i == 0
    || (AllRulesFail(list, i - 1, path, e, a, c) && ListRuleVerdict(list.rules[i - 1], list.cascaded, path, e, a, c.Again(i - 1)).Err?)
  }

  // `compare_lists_with_matchingrule`
  function ListRuleVerdict(rule: MatchingRule, cascaded: bool, path: Path, e: Value, a: Value, c: Context): Verdict
    requires e.Array? && a.Array?
    decreases e, 2, 0
  {
    if e.items == [] then Ok
    else if rule.ArrayContains? then
      var variants := if rule.variants == [] then DefaultVariants(|e.items|) else rule.variants;
      VerdictOf(VariantMismatches(variants, |variants|, path, e, a, c))
    else if rule.EachValue? then
      if cascaded then Ok
      else VerdictOf(References(path, rule.valueRules)
        + ContentMismatches(ContentLength(e, a), path, e, a, c.CloneWith(EachValueCategory(path, rule.valueRules))))
    else
      var whole := if ListMatches(rule, e.items, a.items, cascaded) then [] else [Mismatch(path, RuleMismatch)];
      VerdictOf(whole + ContentMismatches(ContentLength(e, a), path, e, a, c))
  }

  // The first `i` variants.
  function VariantMismatches(variants: seq<Variant>, i: nat, path: Path, e: Value, a: Value, c: Context): seq<Mismatch>
    requires e.Array? && a.Array? && i <= |variants|
    decreases e, 1, i
  {
    if i == 0 then [] else
      Collect(VariantMismatches(variants, i - 1, path, e, a, c), VariantVerdict(variants[i - 1], path, e, a, c.Again(i - 1)))
  }

  function VariantVerdict(variant: Variant, path: Path, e: Value, a: Value, c: Context): Verdict
    requires e.Array? && a.Array?
    decreases e, 0, 0
  {
    if variant.index >= |e.items| then Fail(path, VariantMissing)
    else if SomeMatches(e.items[variant.index], a.items, 0, c.CloneWith(variant.rules)) then Ok
    else Fail(path, VariantNotFound)
  }

  // Whether one of the items from position `j` on matches; their paths start at the root again.
  predicate SomeMatches(item: Value, items: seq<Value>, j: nat, c: Context)
    requires j <= |items|
    decreases item, 6, |items| - j
  {
    j < |items| && (JsonVerdict([Root], item, items[j], c.Trying(items[j])).Ok? || SomeMatches(item, items, j + 1, c))
  }

  function ContentLength(e: Value, a: Value): nat
    requires e.Array? && a.Array?
  {
    FilledLength(|e.items|, |a.items|)
  }

  function ItemFor(e: Value, i: nat): Value
    requires e.Array? && e.items != []
  {
    FilledItem(e.items, i)
  }

  // The first `i` items (`match_list_contents`).
  function ContentMismatches(i: nat, path: Path, e: Value, a: Value, c: Context): seq<Mismatch>
    requires e.Array? && a.Array? && e.items != [] && i <= ContentLength(e, a)
    decreases e, 1, i
  {
    if i == 0 then [] else
      var so := ContentMismatches(i - 1, path, e, a, c);
      var p := JoinPath(path, ShowNat(i - 1));
      if i - 1 < |a.items| then Collect(so, JsonVerdict(p, ItemFor(e, i - 1), a.items[i - 1], c))
      else if !c.MatcherIsDefined(p) then so + [Mismatch(path, MissingItem)]
      else so
  }
}
