/** Comparing JSON under the equality category, which `ArrayContains` falls back to. */
module JsonEqualityLaws {
  import opened Json
  import opened StringOrder
  import opened Paths
  import opened Rules
  import opened Contexts
  import opened RuleMatching
  import opened JsonVerdicts
  import opened JsonAcceptance

  /** The empty path matches every path, so equality is the rule everywhere, and nothing is said about keys. */
  lemma EqualityEverywhere(path: Path, c: Context)
    requires c.matchers == EQUALITY_CATEGORY && path != []
    ensures c.MatcherIsDefined(path) && c.SelectBestMatcher(path).rules == [Equality]
    ensures MatchersForExactPath(c.matchers, path) == [] && !c.KeysAreMatched(path)
  {
    assert PathWeight([], path) == 1;
    OneRule(c.matchers, path, c.first(Best(path, c.turns)));
  }

  lemma EqualKeys(path: Path, c: Context, expected: set<string>, actual: set<string>)
    requires c.matchers == EQUALITY_CATEGORY && path != [] && expected == actual
    ensures KeysVerdict(c, path, expected, actual).Ok?
  {
    EqualityEverywhere(path, c);
    assert RuleKeys([], 0, path, SortedKeys(actual), c.foreign) == [];
  }

  /** Under the equality category a document is accepted exactly when it is equal, except that an empty
    * expected list accepts every list when it stands alone. */
  lemma {:induction false} EqualityRuleExactly(path: Path, e: Value, a: Value, c: Context)
    requires c.matchers == EQUALITY_CATEGORY && path != []
    ensures Accepts(path, e, a, c) <==> e == a || (e == Array([]) && a.Array?)
    decreases e, 1
  {
    EqualityEverywhere(path, c);
    if e.Object? && a.Object? {
      EqualityRuleOnMaps(path, e, a, c);
    } else if e.Array? && a.Array? {
      EqualityRuleOnLists(path, e, a, c);
    } else if !e.Object? && !e.Array? {
      var list := c.SelectBestMatcher(path);
      MatchValuesExactly(path, list, e, a, c.foreign);
      assert list.rules[0] == Equality;
    }
  }

  lemma {:induction false} EqualityRuleOnMaps(path: Path, e: Value, a: Value, c: Context)
    requires c.matchers == EQUALITY_CATEGORY && path != [] && e.Object? && a.Object?
    ensures Accepts(path, e, a, c) <==> e == a
    decreases e, 0
  {
    EqualityEverywhere(path, c);
    var list := c.SelectBestMatcher(path);
    assert list.rules[0] == Equality;
    RuledMapAccepted(path, e, a, c);
    MapRuleAccepted(Equality, list.cascaded, path, e, a, c.Again(0));
    if e == a {
      EqualKeys(path, c.Again(0), e.entries.Keys, a.entries.Keys);
      forall k | k in e.entries ensures EntryAccepted(k, path, e, a, c.Again(0)) {
        EqualityRuleExactly(JoinPath(path, k), e.entries[k], a.entries[k], c.Again(0).Under(k));
      }
    }
  }

  lemma {:induction false} EqualityRuleOnLists(path: Path, e: Value, a: Value, c: Context)
    requires c.matchers == EQUALITY_CATEGORY && path != [] && e.Array? && a.Array?
    ensures Accepts(path, e, a, c) <==> e == a || e.items == []
    decreases e, 0
  {
    EqualityEverywhere(path, c);
    var list := c.SelectBestMatcher(path);
    assert list.rules[0] == Equality;
    assert JsonVerdict(path, e, a, c) == ListRulesVerdict(list, path, e, a, c);
    ListRulesAccepted(list, path, e, a, c);
    if e.items != [] {
      ListRuleAccepted(Equality, list.cascaded, path, e, a, c.Again(0));
      if e == a {
        forall i | 0 <= i < ContentLength(e, a) ensures ContentAccepted(i, path, e, a, c.Again(0)) {
          EqualityRuleExactly(JoinPath(path, ShowNat(i)), e.items[i], a.items[i], c.Again(0));
        }
      }
    }
  }

  predicate Occurs(item: Value, items: seq<Value>) {
    item in items || (item == Array([]) && exists b <- items :: b.Array?)
  }

  /** `ArrayContains` without variants accepts a list when every expected item occurs in it; for an
    * expected empty list any list will do. */
  lemma DefaultVariantsExactly(rule: MatchingRule, cascaded: bool, path: Path, e: Value, a: Value, c: Context)
    requires e.Array? && a.Array? && rule == ArrayContains([])
    ensures ListRuleVerdict(rule, cascaded, path, e, a, c).Ok? <==>
      forall item <- e.items :: Occurs(item, a.items)
  {
    if e.items != [] {
      var variants := DefaultVariants(|e.items|);
      VariantsFound(variants, |variants|, path, e, a, c);
      forall i | 0 <= i < |variants|
        ensures VariantFound(variants[i], e, a, c.Again(i)) <==> Occurs(e.items[i], a.items)
      {
        var d := c.Again(i).CloneWith(EQUALITY_CATEGORY);
        forall b ensures Accepts([Root], e.items[i], b, d.Trying(b)) <==> e.items[i] == b || (e.items[i] == Array([]) && b.Array?)
        {
          EqualityRuleExactly([Root], e.items[i], b, d.Trying(b));
        }
      }
    }
  }
}
