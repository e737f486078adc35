/** What each rule says about scalars, maps and lists. */
module JsonRuleLaws {
  import opened Json
  import opened Paths
  import opened Rules
  import opened Contexts
  import opened RuleMatching
  import opened KeyLaws
  import opened TypeRules
  import opened JsonVerdicts
  import opened JsonAcceptance
  import opened JsonBoundLaws

  // ---- Scalars

  // What the single rule for a scalar wants of the actual value.
  predicate ScalarFits(rule: MatchingRule, e: Value, a: Value, foreign: Foreign) {
    match rule
    case Equality => a == e
    case Values => a == e
    case Type => SameKind(a, e)
    case MinType(_) => SameKind(a, e)
    case MaxType(_) => SameKind(a, e)
    case MinMaxType(_, _) => SameKind(a, e)
    case Null => a == Value.Null
    case Number => a.Number?
    case Integer => a.Number? && a.n.Integer?
    case Decimal => a.Number? && a.n.Decimal?
    case Boolean => a in {Bool(true), Bool(false), String("true"), String("false")}
    case NotEmpty => a !in {Value.Null, String(""), Array([]), Object(map[])}
    case ArrayContains(_) => true
    case EachKey(_) => true
    case EachValue(_) => true
    case StatusCode => true
    case _ => foreign.acceptsValue(a, rule)
  }

  lemma SelectedAtRoot(rule: MatchingRule, c: Context)
    requires c.matchers == RootCategory(rule)
    ensures c.MatcherIsDefined([Root]) && c.SelectBestMatcher([Root]) == RuleList([rule], And, false)
  {
    assert WeightOf([Root], [Root], 0) == 1 && PathWeight([Root], [Root]) == 2;
    OneRule(c.matchers, [Root], c.first(Best([Root], c.turns)));
  }

  lemma ValueFits(rule: MatchingRule, e: Value, a: Value, foreign: Foreign)
    requires !e.Object? && !e.Array?
    ensures ValueMatches(rule, e, a, false, foreign) <==> ScalarFits(rule, e, a, foreign)
  {
  }

  /** With a single rule at the root, a scalar is accepted exactly when the rule fits it. */
  lemma ScalarRuleExactly(rule: MatchingRule, e: Value, a: Value, c: Context)
    requires c.matchers == RootCategory(rule) && !e.Object? && !e.Array?
    ensures Accepts([Root], e, a, c) <==> ScalarFits(rule, e, a, c.foreign)
  {
    var list := c.SelectBestMatcher([Root]);
    SelectedAtRoot(rule, c);
    MatchValuesExactly([Root], list, e, a, c.foreign);
    assert list.rules[0] == rule && forall r <- list.rules :: r == rule;
    ValueFits(rule, e, a, c.foreign);
  }

  // ---- Maps

  predicate IsScalarRule(rule: MatchingRule) {
    match rule
    case Timestamp(_) => true
    case Time(_) => true
    case Date(_) => true
    case Include(_) => true
    case Number => true
    case Integer => true
    case Decimal => true
    case Null => true
    case ContentType(_) => true
    case Boolean => true
    case StatusCode => true
    case Semver => true
    case _ => false
  }

  // What a rule wants of a whole map.
  predicate MapFits(rule: MatchingRule, cascaded: bool, e: map<string, Value>, a: map<string, Value>) {
    match rule
    case Equality => a == e
    case NotEmpty => |a| > 0
    case _ => !IsScalarRule(rule) && (cascaded || WithinBounds(rule, |a|))
  }

  /** No map passes a rule for scalars. The other rules look at the keys and the shared entries; equality, the bounds and
    * the rule against empty values look at the whole map as well. */
  lemma MapRuleExactly(rule: MatchingRule, cascaded: bool, path: Path, e: Value, a: Value, c: Context)
    requires e.Object? && a.Object? && (cascaded || !IsValuesMatcher(rule))
    ensures MapRulePasses(rule, cascaded, path, e, a, c) <==>
      && MapFits(rule, cascaded, e.entries, a.entries)
      && KeysVerdict(c, path, e.entries.Keys, a.entries.Keys).Ok? && AllEntriesAccepted(path, e, a, c)
  {
    MapRuleAccepted(rule, cascaded, path, e, a, c);
    MapMatchesFits(rule, cascaded, e.entries, a.entries);
  }

  lemma MapMatchesFits(rule: MatchingRule, cascaded: bool, e: map<string, Value>, a: map<string, Value>)
    ensures MapMatches(rule, e, a, cascaded) <==> MapFits(rule, cascaded, e, a)
  {
    assert a != map[] <==> |a| > 0;
  }

  lemma KeysMatchedAtRoot(rule: MatchingRule, c: Context)
    requires c.matchers == RootCategory(rule)
    ensures MatchersForExactPath(c.matchers, [Root]) != []
    ensures c.KeysAreMatched([Root]) <==> rule.Values? || rule.EachKey? || rule.EachValue?
  {
    SelectedAtRoot(rule, c);
    OneRule(c.matchers, [Root], c.first(Exact([Root], c.turns)));
    assert c.matchers.rules[0].1.rules[0] == rule;
  }

  lemma OnlyEachKey(rule: MatchingRule, actual: set<string>, foreign: Foreign)
    ensures (forall r <- [rule] :: EachKeyPasses(r, actual, foreign)) <==> EachKeyPasses(rule, actual, foreign)
  {
    assert [rule][0] == rule;
  }

  // What the rule of an `EachKey` wants of a key.
  predicate KeyFits(rule: MatchingRule, key: string, foreign: Foreign) {
    match rule
    case Equality => key == ""
    case Values => key == ""
    case Boolean => key in {"true", "false"}
    case NotEmpty => key != ""
    case Type => true
    case MinType(_) => true
    case MaxType(_) => true
    case MinMaxType(_, _) => true
    case EachKey(_) => false
    case EachValue(_) => false
    case ArrayContains(_) => false
    case Null => false
    case _ => foreign.acceptsString(key, rule)
  }

  lemma KeyFitsExactly(rule: MatchingRule, key: string, foreign: Foreign)
    ensures KeyPasses(rule, key, foreign) <==> KeyFits(rule, key, foreign)
  {
  }

  /** With a single rule at the root, the keys count as they are unless the rule is about keys or values, and an `EachKey`
    * rule has to pass for each actual one. */
  lemma KeysExactlyAtRoot(rule: MatchingRule, expected: set<string>, actual: set<string>, c: Context)
    requires c.matchers == RootCategory(rule)
    ensures KeysVerdict(c, [Root], expected, actual).Ok? <==>
      && (rule.Values? || rule.EachKey? || rule.EachValue?
          || if c.config == NoUnexpectedKeys then expected == actual else expected <= actual)
      && (rule.EachKey? ==> forall r <- rule.keyRules :: r.Resolved? && forall key <- actual :: KeyFits(r.rule, key, c.foreign))
  {
    SelectedAtRoot(rule, c);
    KeysMatchedAtRoot(rule, c);
    KeysExactly(c, [Root], expected, actual);
    OnlyEachKey(rule, actual, c.foreign);
    forall r: MatchingRule, key: string ensures KeyPasses(r, key, c.foreign) <==> KeyFits(r, key, c.foreign) {
      KeyFitsExactly(r, key, c.foreign);
    }
  }

  // ---- Lists

  // What a rule wants of a whole list.
  predicate ListFits(rule: MatchingRule, cascaded: bool, e: seq<Value>, a: seq<Value>) {
    match rule
    case Equality => a == e
    case NotEmpty => |a| > 0
    case Null => false
    case StatusCode => false
    case _ => cascaded || WithinBounds(rule, |a|)
  }

  lemma ListMatchesFits(rule: MatchingRule, cascaded: bool, e: seq<Value>, a: seq<Value>)
    ensures ListMatches(rule, e, a, cascaded) <==> ListFits(rule, cascaded, e, a)
  {
    assert a != [] <==> |a| > 0;
  }

  /** A list that is not expected to be empty passes no rule for nothing and none for a status; the other rules look at the
    * items, and some of them at the whole list as well. */
  lemma ListRuleExactly(rule: MatchingRule, cascaded: bool, path: Path, e: Value, a: Value, c: Context)
    requires e.Array? && a.Array? && e.items != [] && !rule.ArrayContains? && !rule.EachValue?
    ensures ListRulePasses(rule, cascaded, path, e, a, c) <==>
      ListFits(rule, cascaded, e.items, a.items) && FirstContentsAccepted(ContentLength(e, a), path, e, a, c)
  {
    ListRuleAccepted(rule, cascaded, path, e, a, c);
    ListMatchesFits(rule, cascaded, e.items, a.items);
  }
}
