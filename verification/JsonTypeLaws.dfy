/** Comparing JSON with the rule `Type` everywhere: only the shape counts. */
module JsonTypeLaws {
  import opened Json
  import opened StringOrder
  import opened Paths
  import opened Rules
  import opened Contexts
  import opened RuleMatching
  import opened JsonVerdicts
  import opened JsonAcceptance
  import opened JsonPlainLaws
  import opened TypeRules

  // The same kinds all the way down: actual keys as the configuration wants them, the items past the end
  // compared with the first one, and any list for an empty one.
  predicate SameShape(config: DiffConfig, e: Value, a: Value) {
    if e.Object? then
      a.Object?
      && (if config == NoUnexpectedKeys then e.entries.Keys == a.entries.Keys else e.entries.Keys <= a.entries.Keys)
      && forall k | k in e.entries :: k in a.entries ==> SameShape(config, e.entries[k], a.entries[k])
    else if e.Array? then
      a.Array? && (e.items == [] || forall i | 0 <= i < |a.items| :: SameShape(config, ItemFor(e, i), a.items[i]))
    else SameKind(e, a)
  }

  lemma ShapeKeys(path: Path, c: Context, expected: set<string>, actual: set<string>)
    requires !c.KeysAreMatched(path) && IsShapeList(c.SelectBestMatcher(path))
    ensures KeysVerdict(c, path, expected, actual).Ok? <==> if c.config == NoUnexpectedKeys then expected == actual else expected <= actual
  {
    var rules := if MatchersForExactPath(c.matchers, path) != [] then c.SelectBestMatcher(path).rules else [];
    assert RuleKeys(rules, 0, path, SortedKeys(actual), c.foreign) == [];
    assert RuleKeys(rules, |rules|, path, SortedKeys(actual), c.foreign) == [];
  }

  /** Where only shapes are asked for, a document is accepted exactly when it has the same shape. */
  lemma {:induction false} ShapeExactly(path: Path, e: Value, a: Value, c: Context)
    requires OnlyShapes(c, path)
    ensures Accepts(path, e, a, c) <==> SameShape(c.config, e, a)
    decreases e
  {
    if e.Object? && a.Object? {
      ShapeMapExactly(path, e, a, c);
    } else if e.Array? && a.Array? {
      ShapeListExactly(path, e, a, c);
    } else if !e.Object? && !e.Array? {
      ScalarExactly(path, e, a, c);
    }
  }

  lemma ScalarExactly(path: Path, e: Value, a: Value, c: Context)
    requires c.MatcherIsDefined(path) && !e.Object? && !e.Array?
    requires var list := c.SelectBestMatcher(path); |list.rules| == 1 && IsTypeMatcher(list.rules[0])
    ensures Accepts(path, e, a, c) <==> SameKind(e, a)
  {
    var list := c.SelectBestMatcher(path);
    MatchValuesExactly(path, list, e, a, c.foreign);
    assert list.rules[0] in list.rules;
  }

  // The entries that both maps have are accepted by their shapes.
  ghost predicate ShapesDecide(path: Path, e: Value, a: Value, c: Context)
    requires e.Object? && a.Object?
  {
    forall k | k in e.entries && k in a.entries :: EntryAccepted(k, path, e, a, c) <==> SameShape(c.config, e.entries[k], a.entries[k])
  }

  lemma SharedShapes(path: Path, e: Value, a: Value, c: Context)
    requires e.Object? && a.Object? && ShapesDecide(path, e, a, c)
    ensures AllEntriesAccepted(path, e, a, c) <==>
      forall k | k in e.entries :: k in a.entries ==> SameShape(c.config, e.entries[k], a.entries[k])
  {
  }

  lemma OneMapRule(rule: MatchingRule, cascaded: bool, path: Path, e: Value, a: Value, c: Context)
    requires e.Object? && a.Object? && c.MatcherIsDefined(path)
    requires c.SelectBestMatcher(path).rules == [rule] && c.SelectBestMatcher(path).cascaded == cascaded
    ensures Accepts(path, e, a, c) <==>
      && (c.config == NoUnexpectedKeys && e.entries == map[] ==> a.entries == map[])
      && MapRulePasses(rule, cascaded, path, e, a, c.Again(0))
  {
    RuledMapAccepted(path, e, a, c);
    assert c.SelectBestMatcher(path).rules[0] == rule;
  }

  lemma ShapeMap(path: Path, e: Value, a: Value, c: Context)
    requires e.Object? && a.Object? && c.MatcherIsDefined(path) && IsShapeList(c.SelectBestMatcher(path))
    requires ShapesDecide(path, e, a, c.Again(0))
    requires !c.Again(0).KeysAreMatched(path) && IsShapeList(c.Again(0).SelectBestMatcher(path))
    ensures Accepts(path, e, a, c) <==> SameShape(c.config, e, a)
  {
    var list := c.SelectBestMatcher(path);
    OneMapRule(list.rules[0], list.cascaded, path, e, a, c);
    MapRuleAccepted(list.rules[0], list.cascaded, path, e, a, c.Again(0));
    ShapeKeys(path, c.Again(0), e.entries.Keys, a.entries.Keys);
    assert MapMatches(list.rules[0], e.entries, a.entries, list.cascaded);
    SharedShapes(path, e, a, c.Again(0));
  }

  lemma {:induction false} ShapeMapExactly(path: Path, e: Value, a: Value, c: Context)
    requires OnlyShapes(c, path) && e.Object? && a.Object?
    ensures Accepts(path, e, a, c) <==> SameShape(c.config, e, a)
    decreases e, 0
  {
    forall k | k in e.entries && k in a.entries
      ensures EntryAccepted(k, path, e, a, c.Again(0)) <==> SameShape(c.config, e.entries[k], a.entries[k])
    {
      OnlyShapesBelow(c, path, k);
      ShapeExactly(JoinPath(path, k), e.entries[k], a.entries[k], c.Again(0).Under(k));
    }
    OnlyShapesHere(c, path);
    OnlyShapesHere(c.Again(0), path);
    ShapeMap(path, e, a, c);
  }

  // The items of the list are accepted by their shapes, and it does not matter how many there are.
  ghost predicate ItemShapesDecide(path: Path, e: Value, a: Value, c: Context)
    requires e.Array? && a.Array? && e.items != []
  {
    forall i | 0 <= i < ContentLength(e, a) ::
      ContentAccepted(i, path, e, a, c) <==> (i < |a.items| ==> SameShape(c.config, ItemFor(e, i), a.items[i]))
  }

  lemma ItemShapes(path: Path, e: Value, a: Value, c: Context)
    requires e.Array? && a.Array? && e.items != [] && ItemShapesDecide(path, e, a, c)
    ensures FirstContentsAccepted(ContentLength(e, a), path, e, a, c) <==>
      forall i | 0 <= i < |a.items| :: SameShape(c.config, ItemFor(e, i), a.items[i])
  {
  }

  lemma OneListRule(rule: MatchingRule, cascaded: bool, path: Path, e: Value, a: Value, c: Context)
    requires e.Array? && a.Array? && c.MatcherIsDefined(path)
    requires c.SelectBestMatcher(path).rules == [rule] && c.SelectBestMatcher(path).cascaded == cascaded
    ensures Accepts(path, e, a, c) <==> ListRulePasses(rule, cascaded, path, e, a, c.Again(0))
    ensures e.items == [] ==> ListRulePasses(rule, cascaded, path, e, a, c.Again(0))
  {
    var list := c.SelectBestMatcher(path);
    assert JsonVerdict(path, e, a, c) == ListRulesVerdict(list, path, e, a, c);
    ListRulesAccepted(list, path, e, a, c);
    assert list.rules[0] == rule;
  }

  lemma ShapeList(path: Path, e: Value, a: Value, c: Context)
    requires e.Array? && a.Array? && c.MatcherIsDefined(path) && IsShapeList(c.SelectBestMatcher(path))
    requires e.items != [] ==> ItemShapesDecide(path, e, a, c.Again(0))
    ensures Accepts(path, e, a, c) <==> SameShape(c.config, e, a)
  {
    var list := c.SelectBestMatcher(path);
    OneListRule(list.rules[0], list.cascaded, path, e, a, c);
    if e.items != [] {
      ListRuleAccepted(list.rules[0], list.cascaded, path, e, a, c.Again(0));
      assert ListMatches(list.rules[0], e.items, a.items, list.cascaded);
      ItemShapes(path, e, a, c.Again(0));
    }
  }

  lemma {:induction false} ShapeListExactly(path: Path, e: Value, a: Value, c: Context)
    requires OnlyShapes(c, path) && e.Array? && a.Array?
    ensures Accepts(path, e, a, c) <==> SameShape(c.config, e, a)
    decreases e, 0
  {
    if e.items != [] {
      forall i | 0 <= i < ContentLength(e, a)
        ensures ContentAccepted(i, path, e, a, c.Again(0)) <==> (i < |a.items| ==> SameShape(c.config, ItemFor(e, i), a.items[i]))
      {
        OnlyShapesBelow(c, path, ShowNat(i));
        OnlyShapesHere(c.Again(0), JoinPath(path, ShowNat(i)));
        if i < |a.items| {
          ShapeExactly(JoinPath(path, ShowNat(i)), ItemFor(e, i), a.items[i], c.Again(0));
        }
      }
    }
    OnlyShapesHere(c, path);
    ShapeList(path, e, a, c);
  }

  /** With `Type` everywhere, a document is accepted exactly when it has the same shape. */
  lemma TypeExactly(path: Path, e: Value, a: Value, c: Context)
    requires OnlyType(c, path)
    ensures Accepts(path, e, a, c) <==> SameShape(c.config, e, a)
  {
    OnlyTypeIsShapes(c, path);
    ShapeExactly(path, e, a, c);
  }

  /** What is accepted without rules is still accepted with `Type` everywhere. */
  lemma {:induction false} TypeIsWeaker(config: DiffConfig, e: Value, a: Value)
    requires PlainlyAgree(config, e, a)
    ensures SameShape(config, e, a)
    decreases e
  {
    if e.Object? {
      forall k | k in e.entries ensures SameShape(config, e.entries[k], a.entries[k]) {
        TypeIsWeaker(config, e.entries[k], a.entries[k]);
      }
    } else if e.Array? {
      forall i | 0 <= i < |a.items| ensures SameShape(config, ItemFor(e, i), a.items[i]) {
        TypeIsWeaker(config, e.items[i], a.items[i]);
      }
    }
  }

  /** So a context with `Type` everywhere accepts whatever the same context without rules accepts. */
  lemma TypeAcceptsMore(path: Path, e: Value, a: Value, plain: Context, typed: Context)
    requires NoRules(plain) && OnlyType(typed, path) && plain.config == typed.config
    requires Accepts(path, e, a, plain)
    ensures Accepts(path, e, a, typed)
  {
    NoRulesBelow(plain, path);
    PlainExactly(path, e, a, plain);
    TypeIsWeaker(plain.config, e, a);
    TypeExactly(path, e, a, typed);
  }
}
