/** Allowing unexpected keys turns no accepted document away, where no choice between lists matters. */
module JsonConfigLaws {
  import opened Wrappers
  import opened Json
  import opened Paths
  import opened Rules
  import opened Contexts
  import opened JsonVerdicts
  import opened JsonAcceptance
  import opened KeyLaws
  import opened SettledRules

  // Two contexts with the same rules, the second of which is no stricter about unexpected keys. Each finds the
  // lists in orders of its own.
  ghost predicate Relaxes(c: Context, d: Context) {
    && (d.config == NoUnexpectedKeys ==> c.config == NoUnexpectedKeys)
    && c.matchers == d.matchers && c.foreign == d.foreign && Settled(c.matchers)
  }

  lemma SameSelection(path: Path, c: Context, d: Context)
    requires Relaxes(c, d)
    ensures c.SelectBestMatcher(path) == d.SelectBestMatcher(path)
    ensures forall rule <- c.SelectBestMatcher(path).rules :: SettledRule(rule)
  {
    SelectedIsOne(c.matchers, path, c.first(Best(path, c.turns)), d.first(Best(path, d.turns)));
    SelectedAreSettled(c.matchers, path, c.first(Best(path, c.turns)));
  }

  lemma KeysWeaker(c: Context, d: Context, path: Path, expected: set<string>, actual: set<string>)
    requires Relaxes(c, d) && KeysVerdict(c, path, expected, actual).Ok?
    ensures KeysVerdict(d, path, expected, actual).Ok?
  {
    SameSelection(path, c, d);
    AgreeExactly(c.matchers, path);
    KeysExactly(c, path, expected, actual);
    KeysExactly(d, path, expected, actual);
    assert c.KeysAreMatched(path) <==> d.KeysAreMatched(path);
  }

  /** Whatever one context accepts, another one with the same rules accepts too that is no stricter about
    * unexpected keys, whichever lists either finds first. */
  lemma {:induction false} LenientIsWeaker(path: Path, e: Value, a: Value, c: Context, d: Context)
    requires Relaxes(c, d) && Accepts(path, e, a, c)
    ensures Accepts(path, e, a, d)
    decreases e, 5
  {
    if e.Object? && a.Object? {
      MapsWeaker(path, e, a, c, d);
    } else if e.Array? && a.Array? {
      ListsWeaker(path, e, a, c, d);
    } else if !e.Object? && !e.Array? {
      SameSelection(path, c, d);
    }
  }

  lemma {:induction false} EntriesWeaker(path: Path, e: Value, a: Value, c: Context, d: Context)
    requires e.Object? && a.Object? && Relaxes(c, d) && AllEntriesAccepted(path, e, a, c)
    ensures AllEntriesAccepted(path, e, a, d)
    decreases e, 1
  {
    forall k | k in e.entries ensures EntryAccepted(k, path, e, a, d) {
      assert EntryAccepted(k, path, e, a, c);
      if k in a.entries {
        LenientIsWeaker(JoinPath(path, k), e.entries[k], a.entries[k], c.Under(k), d.Under(k));
      }
    }
  }

  lemma {:induction false} AllKeysWeaker(path: Path, e: Value, a: Value, c: Context, d: Context)
    requires e.Object? && a.Object? && Relaxes(c, d) && AllKeysAccepted(path, e, a, c)
    ensures AllKeysAccepted(path, e, a, d)
    decreases e, 1
  {
    forall k | k in a.entries ensures AnyKeyAccepted(k, path, e, a, d) {
      assert AnyKeyAccepted(k, path, e, a, c);
      if k in e.entries {
        LenientIsWeaker(JoinPath(path, k), e.entries[k], a.entries[k], c.Under(k), d.Under(k));
      } else if e.entries.Keys != {} {
        LenientIsWeaker(JoinPath(path, k), FirstValue(e.entries), a.entries[k], c.Under(k), d.Under(k));
      }
    }
  }

  lemma {:induction false} MapsWeaker(path: Path, e: Value, a: Value, c: Context, d: Context)
    requires e.Object? && a.Object? && Relaxes(c, d) && Accepts(path, e, a, c)
    ensures Accepts(path, e, a, d)
    decreases e, 4
  {
    if c.MatcherIsDefined(path) {
      RuledMapAccepted(path, e, a, c);
      RuledMapAccepted(path, e, a, d);
      var list := c.SelectBestMatcher(path);
      SameSelection(path, c, d);
      forall i | 0 <= i < |list.rules| ensures MapRulePasses(list.rules[i], list.cascaded, path, e, a, d.Again(i)) {
        assert MapRulePasses(list.rules[i], list.cascaded, path, e, a, c.Again(i));
        MapRuleWeaker(list.rules[i], list.cascaded, path, e, a, c.Again(i), d.Again(i));
      }
    } else {
      PlainMapAccepted(path, e, a, c);
      PlainMapAccepted(path, e, a, d);
      KeysWeaker(c, d, path, e.entries.Keys, a.entries.Keys);
      EntriesWeaker(path, e, a, c, d);
    }
  }

  lemma {:induction false} MapRuleWeaker(rule: MatchingRule, cascaded: bool, path: Path, e: Value, a: Value, c: Context, d: Context)
    requires e.Object? && a.Object? && Relaxes(c, d) && SettledRule(rule) && MapRulePasses(rule, cascaded, path, e, a, c)
    ensures MapRulePasses(rule, cascaded, path, e, a, d)
    decreases e, 2
  {
    if cascaded || !IsValuesMatcher(rule) {
      MapRuleAccepted(rule, cascaded, path, e, a, c);
      MapRuleAccepted(rule, cascaded, path, e, a, d);
      KeysWeaker(c, d, path, e.entries.Keys, a.entries.Keys);
      EntriesWeaker(path, e, a, c, d);
    } else if rule.Values? {
      ValuesRuleAccepted(rule, path, e, a, c);
      ValuesRuleAccepted(rule, path, e, a, d);
      AllKeysWeaker(path, e, a, c, d);
    } else {
      EachValueMapAccepted(rule, path, e, a, c);
      EachValueMapAccepted(rule, path, e, a, d);
      EachValueIsSettled(path, rule);
      AllKeysWeaker(path, e, a, c.CloneWith(EachValueCategory(path, rule.valueRules)), d.CloneWith(EachValueCategory(path, rule.valueRules)));
    }
  }

  lemma {:induction false} ListsWeaker(path: Path, e: Value, a: Value, c: Context, d: Context)
    requires e.Array? && a.Array? && Relaxes(c, d) && Accepts(path, e, a, c)
    ensures Accepts(path, e, a, d)
    decreases e, 4
  {
    if c.MatcherIsDefined(path) {
      var list := c.SelectBestMatcher(path);
      ListRulesAccepted(list, path, e, a, c);
      ListRulesAccepted(list, path, e, a, d);
      SameSelection(path, c, d);
      forall i | 0 <= i < |list.rules| && ListRulePasses(list.rules[i], list.cascaded, path, e, a, c.Again(i))
        ensures ListRulePasses(list.rules[i], list.cascaded, path, e, a, d.Again(i))
      {
        ListRuleWeaker(list.rules[i], list.cascaded, path, e, a, c.Again(i), d.Again(i));
      }
      assert JsonVerdict(path, e, a, c) == ListRulesVerdict(list, path, e, a, c);
      assert JsonVerdict(path, e, a, d) == ListRulesVerdict(list, path, e, a, d);
    } else {
      PlainListAccepted(path, e, a, c);
      PlainListAccepted(path, e, a, d);
      forall i | 0 <= i < |e.items| ensures ItemAccepted(i, path, e, a, d) {
        assert ItemAccepted(i, path, e, a, c);
        LenientIsWeaker(JoinPath(path, ShowNat(i)), e.items[i], a.items[i], c, d);
      }
    }
  }

  lemma {:induction false} ContentsWeaker(path: Path, e: Value, a: Value, c: Context, d: Context)
    requires e.Array? && a.Array? && e.items != [] && Relaxes(c, d) && FirstContentsAccepted(ContentLength(e, a), path, e, a, c)
    ensures FirstContentsAccepted(ContentLength(e, a), path, e, a, d)
    decreases e, 1
  {
    forall i | 0 <= i < ContentLength(e, a) ensures ContentAccepted(i, path, e, a, d) {
      assert ContentAccepted(i, path, e, a, c);
      if i < |a.items| {
        LenientIsWeaker(JoinPath(path, ShowNat(i)), ItemFor(e, i), a.items[i], c, d);
      }
    }
  }

  lemma {:induction false} ListRuleWeaker(rule: MatchingRule, cascaded: bool, path: Path, e: Value, a: Value, c: Context, d: Context)
    requires e.Array? && a.Array? && Relaxes(c, d) && SettledRule(rule) && ListRulePasses(rule, cascaded, path, e, a, c)
    ensures ListRulePasses(rule, cascaded, path, e, a, d)
    decreases e, 2
  {
    if e.items == [] {
    } else if rule.ArrayContains? {
      ArrayContainsWeaker(rule, cascaded, path, e, a, c, d);
    } else if rule.EachValue? {
      EachValueListAccepted(rule, path, e, a, c);
      EachValueListAccepted(rule, path, e, a, d);
      if !cascaded {
        EachValueIsSettled(path, rule);
        ContentsWeaker(path, e, a, c.CloneWith(EachValueCategory(path, rule.valueRules)), d.CloneWith(EachValueCategory(path, rule.valueRules)));
      }
    } else {
      ListRuleAccepted(rule, cascaded, path, e, a, c);
      ListRuleAccepted(rule, cascaded, path, e, a, d);
      ContentsWeaker(path, e, a, c, d);
    }
  }

  lemma {:induction false} ArrayContainsWeaker(rule: MatchingRule, cascaded: bool, path: Path, e: Value, a: Value, c: Context, d: Context)
    requires e.Array? && a.Array? && e.items != [] && rule.ArrayContains?
    requires Relaxes(c, d) && SettledRule(rule) && ListRulePasses(rule, cascaded, path, e, a, c)
    ensures ListRulePasses(rule, cascaded, path, e, a, d)
    decreases e, 1, 1
  {
    var variants := if rule.variants == [] then DefaultVariants(|e.items|) else rule.variants;
    VariantsFound(variants, |variants|, path, e, a, c);
    VariantsFound(variants, |variants|, path, e, a, d);
    VariantsAreSettled(rule, |e.items|);
    forall i | 0 <= i < |variants| ensures VariantFound(variants[i], e, a, d.Again(i)) {
      VariantWeaker(variants[i], e, a, c.Again(i), d.Again(i));
    }
  }

  lemma {:induction false} VariantWeaker(variant: Variant, e: Value, a: Value, c: Context, d: Context)
    requires e.Array? && a.Array? && Relaxes(c, d) && Settled(variant.rules) && VariantFound(variant, e, a, c)
    ensures VariantFound(variant, e, a, d)
    decreases e, 1, 0
  {
    var item :| item in a.items && Accepts([Root], e.items[variant.index], item, c.CloneWith(variant.rules).Trying(item));
    LenientIsWeaker([Root], e.items[variant.index], item, c.CloneWith(variant.rules).Trying(item), d.CloneWith(variant.rules).Trying(item));
  }

  /** In particular the order in which lists are found decides nothing. */
  lemma OrderIsIgnored(path: Path, e: Value, a: Value, c: Context, d: Context)
    requires c.config == d.config && c.matchers == d.matchers && c.foreign == d.foreign && Settled(c.matchers)
    ensures Accepts(path, e, a, c) <==> Accepts(path, e, a, d)
  {
    if Accepts(path, e, a, c) {
      LenientIsWeaker(path, e, a, c, d);
    } else if Accepts(path, e, a, d) {
      LenientIsWeaker(path, e, a, d, c);
    }
  }

  // ---- Where the lists do not agree

  // The rules selected at the path hold a reference that was never resolved.
  predicate RefusesKeys(c: Category, path: Path) {
    exists rule <- SelectBestMatcher(c, path, 0).rules :: rule.EachKey? && exists r <- rule.keyRules :: r.Reference?
  }

  // Keys that the first context accepts are accepted by the second one.
  predicate KeysCarryOver(c: Context, d: Context, path: Path, expected: set<string>, actual: set<string>) {
    KeysVerdict(c, path, expected, actual).Ok? ==> KeysVerdict(d, path, expected, actual).Ok?
  }

  // The two contexts have these rules, and only the second one allows unexpected keys.
  ghost predicate StrictAndLenient(c: Context, d: Context, rules: Category, foreign: Foreign) {
    && c.config == NoUnexpectedKeys && d.config == AllowUnexpectedKeys
    && c.matchers == rules && d.matchers == rules && c.foreign == foreign && d.foreign == foreign
  }

  /** In a body, allowing unexpected keys turns no accepted keys away, whichever lists are found first, exactly
    * where the lists at the path agree about keys; or else where no keys at all are accepted. */
  lemma KeysWeakerExactly(rules: Category, foreign: Foreign, path: Path)
    requires rules.name == BODY
    ensures (forall c, d, expected, actual :: StrictAndLenient(c, d, rules, foreign) ==> KeysCarryOver(c, d, path, expected, actual))
      <==> AgreeAt(rules, path) || RefusesKeys(rules, path)
  {
    if AgreeAt(rules, path) || RefusesKeys(rules, path) {
      forall c, d, expected, actual | StrictAndLenient(c, d, rules, foreign) ensures KeysCarryOver(c, d, path, expected, actual) {
        KeysAgree(c, d, rules, foreign, path, expected, actual);
      }
    } else {
      var lists := MatchersForExactPath(rules, path);
      var i, j :| 0 <= i < |lists| && 0 <= j < |lists| && AboutKeys(lists[i].1) && !AboutKeys(lists[j].1);
      var c := Context(NoUnexpectedKeys, rules, foreign, (at: Lookup) => i, []);
      var d := Context(AllowUnexpectedKeys, rules, foreign, (at: Lookup) => j, []);
      MissingKeyDecides(c, d, path, i, j);
      assert StrictAndLenient(c, d, rules, foreign) && !KeysCarryOver(c, d, path, {"x"}, {});
    }
  }

  lemma KeysAgree(c: Context, d: Context, rules: Category, foreign: Foreign, path: Path, expected: set<string>, actual: set<string>)
    requires rules.name == BODY && StrictAndLenient(c, d, rules, foreign)
    requires AgreeAt(rules, path) || RefusesKeys(rules, path)
    ensures KeysCarryOver(c, d, path, expected, actual)
  {
    KeysExactly(c, path, expected, actual);
    KeysExactly(d, path, expected, actual);
    AgreeExactly(rules, path);
    assert c.SelectBestMatcher(path) == d.SelectBestMatcher(path) == SelectBestMatcher(rules, path, 0);
    assert AgreeAt(rules, path) ==> (c.KeysAreMatched(path) <==> d.KeysAreMatched(path));
  }

  // One list lets a missing key pass, the other one does not.
  lemma MissingKeyDecides(c: Context, d: Context, path: Path, i: nat, j: nat)
    requires c.matchers == d.matchers && c.matchers.name == BODY && !RefusesKeys(c.matchers, path)
    requires var lists := MatchersForExactPath(c.matchers, path);
      && i < |lists| && c.first(Exact(path, c.turns)) == i && AboutKeys(lists[i].1)
      && j < |lists| && d.first(Exact(path, d.turns)) == j && !AboutKeys(lists[j].1)
    ensures KeysVerdict(c, path, {"x"}, {}).Ok? && KeysVerdict(d, path, {"x"}, {}).Err?
  {
    KeysExactly(c, path, {"x"}, {});
    KeysExactly(d, path, {"x"}, {});
    assert "x" in {"x"} && !({"x"} <= {});
    assert c.SelectBestMatcher(path) == SelectBestMatcher(c.matchers, path, 0);
  }

  // `EachKey` for one entry, and `Type` for all of them.
  const MIXED_CATEGORY :=
    Category(BODY, [([Root, Field("a")], RuleList([EachKey([])], And, false)), ([Root, Star], RuleList([Type], And, false))])

  lemma MixedLists(path: Path)
    requires path == [Root, Field("a")]
    ensures MatchersForExactPath(MIXED_CATEGORY, path) == MIXED_CATEGORY.rules
    ensures forall pick: nat :: SelectBestMatcher(MIXED_CATEGORY, path, pick) == RuleList([EachKey([])], And, false)
    ensures MatcherIsDefined(MIXED_CATEGORY, path) && !RefusesKeys(MIXED_CATEGORY, path)
  {
    var rules := MIXED_CATEGORY.rules;
    assert WeightOf([Root, Field("a")], path, 1) == 2 && WeightOf([Root, Star], path, 1) == 2 by {
      assert WeightOf([Root, Field("a")], path, 0) == 1 && WeightOf([Root, Star], path, 0) == 1;
    }
    assert PathWeight([Root, Field("a")], path) == 4 && PathWeight([Root, Star], path) == 2;
    assert Score(rules[0], path) == 8 && Score(rules[1], path) == 4;
    assert BestOf(rules, path, 0) == None && BestOf(rules, path, 1) == Some(0) && BestOf(rules, path, 2) == Some(0);
    assert rules[1..] == [rules[1]] && rules[1..][1..] == [];
    assert Filtered(rules[1..], (pattern, list) => |pattern| == |path| && MatchesPath(pattern, path)) == [rules[1]];
    assert Filtered(rules, (pattern, list) => |pattern| == |path| && MatchesPath(pattern, path)) == rules;
    assert Filtered(rules, (pattern, list) => MatchesPath(pattern, path)) != [] by {
      FilteredEmpty(rules, (pattern, list) => MatchesPath(pattern, path));
    }
  }

  lemma OnlyMapRule(path: Path, e: Value, a: Value, c: Context, rule: MatchingRule)
    requires e.Object? && a.Object? && e.entries != map[]
    requires c.MatcherIsDefined(path) && c.SelectBestMatcher(path).rules == [rule]
    ensures Accepts(path, e, a, c) <==> MapRulePasses(rule, c.SelectBestMatcher(path).cascaded, path, e, a, c.Again(0))
  {
    RuledMapAccepted(path, e, a, c);
    assert c.SelectBestMatcher(path).rules[0] == rule;
  }

  // A rule for the keys, with no entries to compare, leaves it to the keys.
  lemma KeyRuleAccepted(rule: MatchingRule, cascaded: bool, path: Path, e: Value, a: Value, c: Context)
    requires e.Object? && a.Object? && a.entries.Keys == {} && rule.EachKey?
    ensures MapRulePasses(rule, cascaded, path, e, a, c) <==> KeysVerdict(c, path, e.entries.Keys, {}).Ok?
  {
    MapRuleAccepted(rule, cascaded, path, e, a, c);
    NothingToCompare(path, e, a, c);
  }

  lemma NothingToCompare(path: Path, e: Value, a: Value, c: Context)
    requires e.Object? && a.Object? && a.entries.Keys == {}
    ensures AllEntriesAccepted(path, e, a, c)
  {
    assert forall k :: k !in a.entries;
  }

  lemma OneKeyRule(path: Path, e: Value, a: Value, c: Context, rule: MatchingRule)
    requires e.Object? && a.Object? && e.entries.Keys == {"x"} && a.entries.Keys == {} && rule.EachKey?
    requires c.MatcherIsDefined(path) && c.SelectBestMatcher(path).rules == [rule]
    ensures Accepts(path, e, a, c) <==> KeysVerdict(c.Again(0), path, {"x"}, {}).Ok?
  {
    assert "x" in e.entries.Keys;
    OnlyMapRule(path, e, a, c, rule);
    KeyRuleAccepted(rule, c.SelectBestMatcher(path).cascaded, path, e, a, c.Again(0));
  }

  /** So under one set of rules a missing key is accepted or not, in either configuration, as the order of a
    * new hash map has it: a context that refuses unexpected keys can accept what one that allows them rejects. */
  lemma OrderDecides(path: Path, c: Context, d: Context)
    requires path == [Root, Field("a")] && c.matchers == d.matchers == MIXED_CATEGORY
    requires c.Again(0).first(Exact(path, c.Again(0).turns)) == 0 && d.Again(0).first(Exact(path, d.Again(0).turns)) == 1
    ensures Accepts(path, Object(map["x" := Value.Null]), Object(map[]), c) && !Accepts(path, Object(map["x" := Value.Null]), Object(map[]), d)
  {
    MixedLists(path);
    MissingKeyDecides(c.Again(0), d.Again(0), path, 0, 1);
    var e, a := Object(map["x" := Value.Null]), Object(map[]);
    assert e.entries.Keys == {"x"} && a.entries.Keys == {};
    OneKeyRule(path, e, a, c, EachKey([]));
    OneKeyRule(path, e, a, d, EachKey([]));
  }
}
