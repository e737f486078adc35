/** Contexts in which `Type` is the only rule. */
module TypeRules {
  import opened Paths
  import opened Rules
  import opened Contexts

  // `Type` is the one rule selected at or below the path, and no rule there is about keys.
  ghost predicate OnlyType(c: Context, path: Path) {
    && (forall p: Path :: path <= p ==> MatcherIsDefined(c.matchers, p) && TypeMatcherDefined(c.matchers, p))
    && (forall p: Path, pick: nat :: path <= p ==> SelectBestMatcher(c.matchers, p, pick).rules == [Type])
    && (forall p: Path, pick: nat :: path <= p ==> !KeysAreMatched(c.matchers, p, pick))
  }

  predicate OnlyTypeAt(c: Category, p: Path, pick: nat) {
    && MatcherIsDefined(c, p) && TypeMatcherDefined(c, p)
    && SelectBestMatcher(c, p, pick).rules == [Type] && !KeysAreMatched(c, p, pick)
  }

  lemma OnlyTypeEverywhere(c: Context, path: Path)
    requires forall p: Path, pick: nat :: path <= p ==> OnlyTypeAt(c.matchers, p, pick)
    ensures OnlyType(c, path)
  {
    forall p: Path | path <= p ensures MatcherIsDefined(c.matchers, p) && TypeMatcherDefined(c.matchers, p) {
      assert OnlyTypeAt(c.matchers, p, 0);
    }
    forall p: Path, pick: nat | path <= p
      ensures SelectBestMatcher(c.matchers, p, pick).rules == [Type] && !KeysAreMatched(c.matchers, p, pick)
    {
      assert OnlyTypeAt(c.matchers, p, pick);
    }
  }

  lemma OnlyTypeBelow(c: Context, path: Path, part: string)
    requires OnlyType(c, path)
    ensures OnlyType(c, JoinPath(path, part))
  {
  }

  // As many as the rule asks for, with both bounds included.
  predicate WithinBounds(rule: MatchingRule, n: nat) {
    match rule
    case MinType(min) => min <= n
    case MaxType(max) => n <= max
    case MinMaxType(min, max) => min <= n && n <= max
    case _ => true
  }

  // A single rule that only the shape matters to: `Type`, or a bound inherited from a path above.
  predicate IsShapeList(list: RuleList) {
    |list.rules| == 1 && IsTypeMatcher(list.rules[0]) && (list.rules[0].Type? || list.cascaded)
  }

  // Such a list is selected at or below the path.
  ghost predicate OnlyShapes(c: Context, path: Path) {
    && (forall p: Path :: path <= p ==> MatcherIsDefined(c.matchers, p))
    && (forall p: Path, pick: nat :: path <= p ==> IsShapeList(SelectBestMatcher(c.matchers, p, pick)))
    && (forall p: Path, pick: nat :: path <= p ==> !KeysAreMatched(c.matchers, p, pick))
  }

  lemma OnlyTypeIsShapes(c: Context, path: Path)
    requires OnlyType(c, path)
    ensures OnlyShapes(c, path)
  {
    forall p: Path, pick: nat | path <= p ensures IsShapeList(SelectBestMatcher(c.matchers, p, pick)) {
      assert SelectBestMatcher(c.matchers, p, pick).rules == [Type];
      assert SelectBestMatcher(c.matchers, p, pick).rules[0] == Type;
    }
  }

  lemma OnlyShapesHere(c: Context, path: Path)
    requires OnlyShapes(c, path)
    ensures c.MatcherIsDefined(path) && IsShapeList(c.SelectBestMatcher(path)) && !c.KeysAreMatched(path)
  {
  }

  lemma OnlyShapesBelow(c: Context, path: Path, part: string)
    requires OnlyShapes(c, path)
    ensures OnlyShapes(c, JoinPath(path, part))
  {
  }

  // The category with the single rule `Type` at the root of a body.
  const TYPE_CATEGORY := Category(BODY, [([Root], RuleList([Type], And, false))])

  /** The rule at the root cascades to every path below it. */
  lemma TypeCategoryIsOnlyType(c: Context)
    requires c.matchers == TYPE_CATEGORY
    ensures OnlyType(c, [Root])
  {
    forall p: Path, pick: nat | [Root] <= p ensures OnlyTypeAt(c.matchers, p, pick) {
      assert WeightOf([Root], p, 0) == 1 && PathWeight([Root], p) == 2;
      OneRule(c.matchers, p, pick);
      assert Type in c.matchers.rules[0].1.rules;
    }
    OnlyTypeEverywhere(c, [Root]);
  }
}
