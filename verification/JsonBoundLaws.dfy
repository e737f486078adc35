/** What a rule with bounds at the root of a body decides (`MinType`, `MaxType` and `MinMaxType`). */
module JsonBoundLaws {
  import opened Json
  import opened StringOrder
  import opened Paths
  import opened Rules
  import opened Contexts
  import opened TypeRules
  import opened JsonVerdicts
  import opened JsonAcceptance
  import opened JsonTypeLaws

  // The single rule at the root of a body.
  function RootCategory(rule: MatchingRule): Category {
    Category(BODY, [([Root], RuleList([rule], And, false))])
  }

  lemma RootRule(rule: MatchingRule, p: Path, pick: nat, c: Category)
    requires c == RootCategory(rule) && [Root] <= p && IsTypeMatcher(rule)
    ensures MatcherIsDefined(c, p) && !KeysAreMatched(c, p, pick)
    ensures SelectBestMatcher(c, p, pick) == RuleList([rule], And, |p| != 1)
  {
    assert WeightOf([Root], p, 0) == 1 && PathWeight([Root], p) == 2;
    OneRule(c, p, pick);
  }

  // Below the root the bounds are inherited, and count no more.
  lemma ShapesBelowRoot(rule: MatchingRule, part: string, c: Context)
    requires c.matchers == RootCategory(rule) && IsTypeMatcher(rule)
    ensures OnlyShapes(c, JoinPath([Root], part))
  {
    forall p: Path | JoinPath([Root], part) <= p ensures MatcherIsDefined(c.matchers, p) {
      RootRule(rule, p, 0, c.matchers);
    }
    forall p: Path, pick: nat | JoinPath([Root], part) <= p
      ensures IsShapeList(SelectBestMatcher(c.matchers, p, pick)) && !KeysAreMatched(c.matchers, p, pick)
    {
      RootRule(rule, p, pick, c.matchers);
    }
  }

  // The whole map or list has to be within the bounds; a list that is expected to be empty is not looked at.
  predicate SizeFits(rule: MatchingRule, e: Value, a: Value) {
    && (a.Object? ==> WithinBounds(rule, |a.entries|))
    && (a.Array? && e.Array? && e.items != [] ==> WithinBounds(rule, |a.items|))
  }

  lemma RootKeys(rule: MatchingRule, c: Context, expected: set<string>, actual: set<string>)
    requires c.matchers == RootCategory(rule) && IsTypeMatcher(rule)
    ensures KeysVerdict(c, [Root], expected, actual).Ok? <==> if c.config == NoUnexpectedKeys then expected == actual else expected <= actual
  {
    var rules := if MatchersForExactPath(c.matchers, [Root]) != [] then c.SelectBestMatcher([Root]).rules else [];
    RootRule(rule, [Root], c.first(Exact([Root], c.turns)), c.matchers);
    RootRule(rule, [Root], c.first(Best([Root], c.turns)), c.matchers);
    assert RuleKeys(rules, 0, [Root], SortedKeys(actual), c.foreign) == [];
    assert RuleKeys(rules, |rules|, [Root], SortedKeys(actual), c.foreign) == [];
  }

  lemma MapBoundsExactly(rule: MatchingRule, e: Value, a: Value, c: Context)
    requires c.matchers == RootCategory(rule) && IsTypeMatcher(rule) && e.Object? && a.Object?
    ensures Accepts([Root], e, a, c) <==> SameShape(c.config, e, a) && SizeFits(rule, e, a)
  {
    var list := c.SelectBestMatcher([Root]);
    RootRule(rule, [Root], c.first(Best([Root], c.turns)), c.matchers);
    RuledMapAccepted([Root], e, a, c);
    MapRuleAccepted(rule, false, [Root], e, a, c.Again(0));
    RootKeys(rule, c.Again(0), e.entries.Keys, a.entries.Keys);
    forall k | k in e.entries && k in a.entries
      ensures EntryAccepted(k, [Root], e, a, c.Again(0)) <==> SameShape(c.config, e.entries[k], a.entries[k])
    {
      ShapesBelowRoot(rule, k, c.Again(0).Under(k));
      ShapeExactly(JoinPath([Root], k), e.entries[k], a.entries[k], c.Again(0).Under(k));
    }
  }

  lemma ListBoundsExactly(rule: MatchingRule, e: Value, a: Value, c: Context)
    requires c.matchers == RootCategory(rule) && IsTypeMatcher(rule) && e.Array? && a.Array?
    ensures Accepts([Root], e, a, c) <==> SameShape(c.config, e, a) && SizeFits(rule, e, a)
  {
    var list := c.SelectBestMatcher([Root]);
    RootRule(rule, [Root], c.first(Best([Root], c.turns)), c.matchers);
    assert JsonVerdict([Root], e, a, c) == ListRulesVerdict(list, [Root], e, a, c);
    ListRulesAccepted(list, [Root], e, a, c);
    if e.items != [] {
      ListRuleAccepted(rule, false, [Root], e, a, c.Again(0));
      forall i | 0 <= i < ContentLength(e, a)
        ensures ContentAccepted(i, [Root], e, a, c.Again(0)) <==> (i < |a.items| ==> SameShape(c.config, ItemFor(e, i), a.items[i]))
      {
        ShapesBelowRoot(rule, ShowNat(i), c.Again(0));
        if i < |a.items| {
          ShapeExactly(JoinPath([Root], ShowNat(i)), ItemFor(e, i), a.items[i], c.Again(0));
        }
      }
    }
  }

  /** A rule with bounds at the root accepts the documents of the same shape whose size is within them. */
  lemma BoundsExactly(rule: MatchingRule, e: Value, a: Value, c: Context)
    requires c.matchers == RootCategory(rule) && IsTypeMatcher(rule)
    ensures Accepts([Root], e, a, c) <==> SameShape(c.config, e, a) && SizeFits(rule, e, a)
  {
    if e.Object? && a.Object? {
      MapBoundsExactly(rule, e, a, c);
    } else if e.Array? && a.Array? {
      ListBoundsExactly(rule, e, a, c);
    } else if !e.Object? && !e.Array? {
      RootRule(rule, [Root], c.first(Best([Root], c.turns)), c.matchers);
      ScalarExactly([Root], e, a, c);
    }
  }
}
