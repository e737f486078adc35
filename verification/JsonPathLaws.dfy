/** Every failure of the JSON comparator says why, at or below the path it started from. */
module JsonPathLaws {
  import opened Json
  import opened StringOrder
  import opened Paths
  import opened Rules
  import opened Contexts
  import opened RuleMatching
  import opened JsonVerdicts

  lemma UnderConcat(path: Path, a: seq<Mismatch>, b: seq<Mismatch>)
    requires AllUnder(path, a) && AllUnder(path, b)
    ensures AllUnder(path, a + b)
  {
  }

  lemma CollectUnder(path: Path, mismatches: seq<Mismatch>, v: Verdict)
    requires AllUnder(path, mismatches) && Justified(v, path)
    ensures AllUnder(path, Collect(mismatches, v))
  {
  }

  lemma JustifiedAbove(v: Verdict, path: Path, part: string)
    requires Justified(v, JoinPath(path, part))
    ensures Justified(v, path)
  {
    JustifiedUp(v, path, JoinPath(path, part));
  }

  lemma {:induction false} ReferencesUnder(path: Path, rules: seq<RuleOrReference>)
    ensures AllUnder(path, References(path, rules))
  {
    if rules != [] {
      ReferencesUnder(path, rules[1..]);
    }
  }

  lemma {:induction false} KeysFailingUnder(rule: MatchingRule, path: Path, keys: seq<string>, i: nat, foreign: Foreign)
    requires i <= |keys|
    ensures AllUnder(path, KeysFailing(rule, path, keys, i, foreign))
  {
    if i > 0 {
      KeysFailingUnder(rule, path, keys, i - 1, foreign);
    }
  }

  lemma {:induction false} EachKeyUnder(rules: seq<RuleOrReference>, i: nat, path: Path, keys: seq<string>, foreign: Foreign)
    requires i <= |rules|
    ensures AllUnder(path, EachKeyMismatches(rules, i, path, keys, foreign))
  {
    if i > 0 {
      EachKeyUnder(rules, i - 1, path, keys, foreign);
      if rules[i - 1].Resolved? {
        KeysFailingUnder(rules[i - 1].rule, path, keys, |keys|, foreign);
      }
    }
  }

  lemma {:induction false} RuleKeysUnder(rules: seq<MatchingRule>, i: nat, path: Path, keys: seq<string>, foreign: Foreign)
    requires i <= |rules|
    ensures AllUnder(path, RuleKeys(rules, i, path, keys, foreign))
  {
    if i > 0 {
      RuleKeysUnder(rules, i - 1, path, keys, foreign);
      if rules[i - 1].EachKey? {
        EachKeyUnder(rules[i - 1].keyRules, |rules[i - 1].keyRules|, path, keys, foreign);
      }
    }
  }

  lemma KeysJustified(c: Context, path: Path, expected: set<string>, actual: set<string>)
    ensures Justified(KeysVerdict(c, path, expected, actual), path)
  {
    var rules := if MatchersForExactPath(c.matchers, path) != [] then c.SelectBestMatcher(path).rules else [];
    RuleKeysUnder(rules, |rules|, path, SortedKeys(actual), c.foreign);
    UnderConcat(path, PlainKeys(c, path, expected, actual), RuleKeys(rules, |rules|, path, SortedKeys(actual), c.foreign));
  }

  /** For every context, and whatever rules it is swapped for on the way down: a failed comparison has
    * a mismatch, and all its mismatches lie at or below the path the comparison started from. */
  lemma {:induction false} CompareJustified(path: Path, e: Value, a: Value, c: Context)
    ensures Justified(JsonVerdict(path, e, a, c), path)
    decreases e, 5, 0
  {
    if e.Object? && a.Object? {
      MapsJustified(path, e, a, c);
    } else if e.Array? && a.Array? {
      ListsJustified(path, e, a, c);
    } else if !e.Object? && !e.Array? {
      MatchValuesExactly(path, c.SelectBestMatcher(path), e, a, c.foreign);
    }
  }

  lemma {:induction false} MapsJustified(path: Path, e: Value, a: Value, c: Context)
    requires e.Object? && a.Object?
    ensures Justified(MapsVerdict(path, e, a, c), path)
    decreases e, 4, 0
  {
    var list := c.SelectBestMatcher(path);
    MapRulesJustified(list, |list.rules|, path, e, a, c);
    var keys := SortedKeys(e.entries.Keys);
    KeysJustified(c, path, e.entries.Keys, a.entries.Keys);
    EntriesJustified(KeysVerdict(c, path, e.entries.Keys, a.entries.Keys), keys, |keys|, path, e, a, c);
  }

  ghost predicate MapRuleIsJustified(list: RuleList, j: nat, path: Path, e: Value, a: Value, c: Context)
    requires e.Object? && a.Object? && j < |list.rules|
  {
    Justified(MapRuleVerdict(list.rules[j], list.cascaded, path, e, a, c.Again(j)), path)
  }

  ghost predicate MapRulesAreJustified(list: RuleList, i: nat, path: Path, e: Value, a: Value, c: Context)
    requires e.Object? && a.Object? && i <= |list.rules|
  {
    Justified(MapRulesVerdict(list, i, path, e, a, c), path)
  }

  // One more rule merges its verdict into the one so far.
  lemma MapRulesMore(list: RuleList, i: nat, path: Path, e: Value, a: Value, c: Context)
    requires e.Object? && a.Object? && i < |list.rules|
    requires MapRulesAreJustified(list, i, path, e, a, c) && MapRuleIsJustified(list, i, path, e, a, c)
    ensures MapRulesAreJustified(list, i + 1, path, e, a, c)
  {
    MergeJustified(MapRulesVerdict(list, i, path, e, a, c), MapRuleVerdict(list.rules[i], list.cascaded, path, e, a, c.Again(i)), path);
  }

  lemma {:induction false} MapRulesJustified(list: RuleList, i: nat, path: Path, e: Value, a: Value, c: Context)
    requires e.Object? && a.Object? && i <= |list.rules|
    ensures MapRulesAreJustified(list, i, path, e, a, c)
    decreases e, 3, i
  {
    if i > 0 {
      MapRulesJustified(list, i - 1, path, e, a, c);
      NthMapRuleJustified(list, i - 1, path, e, a, c);
      MapRulesMore(list, i - 1, path, e, a, c);
    }
  }

  lemma {:induction false} NthMapRuleJustified(list: RuleList, j: nat, path: Path, e: Value, a: Value, c: Context)
    requires e.Object? && a.Object? && j < |list.rules|
    ensures MapRuleIsJustified(list, j, path, e, a, c)
    decreases e, 3, 0
  {
    MapRuleJustified(list.rules[j], list.cascaded, path, e, a, c.Again(j));
  }

  lemma {:induction false} MapRuleJustified(rule: MatchingRule, cascaded: bool, path: Path, e: Value, a: Value, c: Context)
    requires e.Object? && a.Object?
    ensures Justified(MapRuleVerdict(rule, cascaded, path, e, a, c), path)
    decreases e, 2, 0
  {
    if !cascaded && IsValuesMatcher(rule) {
      var keys := SortedKeys(a.entries.Keys);
      if rule.EachValue? {
        ReferencesUnder(path, rule.valueRules);
        AnyKeyJustified(VerdictOf(References(path, rule.valueRules)), keys, |keys|, path, e, a,
          c.CloneWith(EachValueCategory(path, rule.valueRules)));
      } else {
        AnyKeyJustified(Ok, keys, |keys|, path, e, a, c.CloneWith(c.matchers));
      }
    } else {
      var whole := if MapMatches(rule, e.entries, a.entries, cascaded) then Ok else Fail(path, RuleMismatch);
      var found := KeysVerdict(c, path, e.entries.Keys, a.entries.Keys);
      KeysJustified(c, path, e.entries.Keys, a.entries.Keys);
      MergeJustified(whole, found, path);
      var keys := SortedKeys(e.entries.Keys);
      EntriesJustified(MergeResult(whole, found), keys, |keys|, path, e, a, c);
    }
  }

  lemma {:induction false} EntriesJustified(start: Verdict, keys: seq<string>, i: nat, path: Path, e: Value, a: Value, c: Context)
    requires e.Object? && a.Object? && i <= |keys| && forall k <- keys :: k in e.entries
    requires Justified(start, path)
    ensures Justified(EntriesVerdict(start, keys, i, path, e, a, c), path)
    decreases e, 1, i
  {
    if i > 0 {
      var key := keys[i - 1];
      EntriesJustified(start, keys, i - 1, path, e, a, c);
      if key in a.entries {
        var v := JsonVerdict(JoinPath(path, key), e.entries[key], a.entries[key], c.Under(key));
        CompareJustified(JoinPath(path, key), e.entries[key], a.entries[key], c.Under(key));
        JustifiedAbove(v, path, key);
        MergeJustified(EntriesVerdict(start, keys, i - 1, path, e, a, c), v, path);
      }
    }
  }

  lemma {:induction false} AnyKeyJustified(start: Verdict, keys: seq<string>, i: nat, path: Path, e: Value, a: Value, c: Context)
    requires e.Object? && a.Object? && i <= |keys| && forall k <- keys :: k in a.entries
    requires Justified(start, path)
    ensures Justified(AnyKeyVerdict(start, keys, i, path, e, a, c), path)
    decreases e, 1, i
  {
    if i > 0 {
      var key := keys[i - 1];
      var so := AnyKeyVerdict(start, keys, i - 1, path, e, a, c);
      AnyKeyJustified(start, keys, i - 1, path, e, a, c);
      if key in e.entries {
        AnyEntryJustified(so, key, e.entries[key], path, e, a, c);
      } else if e.entries.Keys != {} {
        AnyEntryJustified(so, key, FirstValue(e.entries), path, e, a, c);
      }
    }
  }

  lemma {:induction false} AnyEntryJustified(so: Verdict, key: string, v: Value, path: Path, e: Value, a: Value, c: Context)
    requires e.Object? && a.Object? && key in a.entries && Justified(so, path) && v in e.entries.Values
    ensures Justified(MergeResult(so, JsonVerdict(JoinPath(path, key), v, a.entries[key], c.Under(key))), path)
    decreases e, 0, 0
  {
    CompareJustified(JoinPath(path, key), v, a.entries[key], c.Under(key));
    JustifiedAbove(JsonVerdict(JoinPath(path, key), v, a.entries[key], c.Under(key)), path, key);
    MergeJustified(so, JsonVerdict(JoinPath(path, key), v, a.entries[key], c.Under(key)), path);
  }

  lemma {:induction false} ListsJustified(path: Path, e: Value, a: Value, c: Context)
    requires e.Array? && a.Array?
    ensures Justified(ListsVerdict(path, e, a, c), path)
    decreases e, 4, 0
  {
    if c.MatcherIsDefined(path) {
      ListRulesJustified(c.SelectBestMatcher(path), path, e, a, c);
    } else {
      ItemsJustified(|e.items|, path, e, a, c);
      MergeJustified(ItemsVerdict(|e.items|, path, e, a, c), Fail(path, LengthMismatch), path);
    }
  }

  lemma {:induction false} ItemsJustified(i: nat, path: Path, e: Value, a: Value, c: Context)
    requires e.Array? && a.Array? && i <= |e.items|
    ensures Justified(ItemsVerdict(i, path, e, a, c), path)
    decreases e, 1, i
  {
    if i > 0 {
      var p := JoinPath(path, ShowNat(i - 1));
      ItemsJustified(i - 1, path, e, a, c);
      if i - 1 < |a.items| {
        var v := JsonVerdict(p, e.items[i - 1], a.items[i - 1], c);
        CompareJustified(p, e.items[i - 1], a.items[i - 1], c);
        JustifiedAbove(v, path, ShowNat(i - 1));
        MergeJustified(ItemsVerdict(i - 1, path, e, a, c), v, path);
      } else {
        MergeJustified(ItemsVerdict(i - 1, path, e, a, c), Fail(path, MissingItem), path);
      }
    }
  }

  lemma {:induction false} ListRulesJustified(list: RuleList, path: Path, e: Value, a: Value, c: Context)
    requires e.Array? && a.Array?
    ensures Justified(ListRulesVerdict(list, path, e, a, c), path)
    decreases e, 3, |list.rules| + 1
  {
    RuleFailuresUnder(list, |list.rules|, path, e, a, c);
  }

  lemma {:induction false} RuleFailuresUnder(list: RuleList, i: nat, path: Path, e: Value, a: Value, c: Context)
    requires e.Array? && a.Array? && i <= |list.rules|
    ensures AllUnder(path, RuleFailures(list, i, path, e, a, c))
    decreases e, 3, i
  {
    if i > 0 {
      RuleFailuresUnder(list, i - 1, path, e, a, c);
      ListRuleJustified(list.rules[i - 1], list.cascaded, path, e, a, c.Again(i - 1));
      CollectUnder(path, RuleFailures(list, i - 1, path, e, a, c), ListRuleVerdict(list.rules[i - 1], list.cascaded, path, e, a, c.Again(i - 1)));
    }
  }

  lemma {:induction false} ListRuleJustified(rule: MatchingRule, cascaded: bool, path: Path, e: Value, a: Value, c: Context)
    requires e.Array? && a.Array?
    ensures Justified(ListRuleVerdict(rule, cascaded, path, e, a, c), path)
    decreases e, 2, 0
  {
    if e.items != [] {
      if rule.ArrayContains? {
        var variants := if rule.variants == [] then DefaultVariants(|e.items|) else rule.variants;
        VariantsUnder(variants, |variants|, path, e, a, c);
      } else if rule.EachValue? {
        var swapped := c.CloneWith(EachValueCategory(path, rule.valueRules));
        ReferencesUnder(path, rule.valueRules);
        ContentUnder(ContentLength(e, a), path, e, a, swapped);
        UnderConcat(path, References(path, rule.valueRules), ContentMismatches(ContentLength(e, a), path, e, a, swapped));
      } else {
        var whole := if ListMatches(rule, e.items, a.items, cascaded) then [] else [Mismatch(path, RuleMismatch)];
        ContentUnder(ContentLength(e, a), path, e, a, c);
        UnderConcat(path, whole, ContentMismatches(ContentLength(e, a), path, e, a, c));
      }
    }
  }

  lemma {:induction false} VariantsUnder(variants: seq<Variant>, i: nat, path: Path, e: Value, a: Value, c: Context)
    requires e.Array? && a.Array? && i <= |variants|
    ensures AllUnder(path, VariantMismatches(variants, i, path, e, a, c))
    decreases e, 1, i
  {
    if i > 0 {
      VariantsUnder(variants, i - 1, path, e, a, c);
      CollectUnder(path, VariantMismatches(variants, i - 1, path, e, a, c), VariantVerdict(variants[i - 1], path, e, a, c.Again(i - 1)));
    }
  }

  lemma {:induction false} ContentUnder(i: nat, path: Path, e: Value, a: Value, c: Context)
    requires e.Array? && a.Array? && e.items != [] && i <= ContentLength(e, a)
    ensures AllUnder(path, ContentMismatches(i, path, e, a, c))
    decreases e, 1, i
  {
    if i > 0 {
      var p := JoinPath(path, ShowNat(i - 1));
      ContentUnder(i - 1, path, e, a, c);
      if i - 1 < |a.items| {
        var v := JsonVerdict(p, ItemFor(e, i - 1), a.items[i - 1], c);
        CompareJustified(p, ItemFor(e, i - 1), a.items[i - 1], c);
        JustifiedAbove(v, path, ShowNat(i - 1));
        CollectUnder(path, ContentMismatches(i - 1, path, e, a, c), v);
      } else {
        UnderConcat(path, ContentMismatches(i - 1, path, e, a, c), [Mismatch(path, MissingItem)]);
      }
    }
  }
}
