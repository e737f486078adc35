/** What a rule for one attribute of an element decides. */
module XmlAttributeLaws {
  import opened Paths
  import opened Rules
  import opened Contexts
  import opened PatternLaws
  import opened Xml
  import opened XmlVerdicts
  import opened XmlLaws
  import opened XmlReports

  // `Type` for an attribute of the element at a path, and nothing else.
  function AttributeCategory(path: Path, key: string): Category {
    Category(BODY, [(AttributePath(path, key), RuleList([Type], And, false))])
  }

  // The other attributes are equal; of this one only the name counts.
  predicate OthersAgree(config: DiffConfig, key: string, e: map<string, string>, a: map<string, string>) {
    && CountFits(config, |e|, |a|)
    && forall k | k in e :: k in a && (k != key ==> e[k] == a[k])
  }

  lemma TypePassesAnything(p: Path, e: string, a: string, c: Context)
    requires c.MatcherIsDefined(p) && c.SelectBestMatcher(p).rules == [Type]
    ensures TextPasses(p, e, a, c)
  {
    var list := c.SelectBestMatcher(p);
    assert list.rules[0] == Type;
    assert Type in list.rules && StringMatches(Type, e, a, list.cascaded, c.foreign);
  }

  // Where the rule for the attribute is defined.
  lemma AttributeRule(path: Path, key: string, p: Path, c: Context)
    requires path != [] && Addressable(path) && c.matchers == AttributeCategory(path, key) && path <= p && |p| > |path|
    requires IsJoined(p[|path|])
    ensures c.MatcherIsDefined(p) <==> p[|path|] == Field("@" + key)
    ensures c.MatcherIsDefined(p) ==> c.SelectBestMatcher(p).rules == [Type]
    ensures !c.MatcherIsDefined(p) ==> MatchersForExactPath(c.matchers, p) == []
  {
    var pattern, covered := AttributePath(path, key), path + [p[|path|]];
    SignedFields(path, key);
    JoinedToken("@" + key);
    assert covered <= p;
    BelowExactly(pattern, covered, p);
    CoversLast(path, Field("@" + key), p[|path|]);
    OneRule(c.matchers, p, c.first(Best(p, c.turns)));
  }

  lemma SameSign(k: string, key: string)
    ensures "@" + k == "@" + key <==> k == key
  {
    assert ("@" + k)[1..] == k && ("@" + key)[1..] == key;
  }

  lemma OneAttributeRule(path: Path, key: string, k: string, e: map<string, string>, a: map<string, string>, c: Context)
    requires path != [] && Addressable(path) && c.matchers == AttributeCategory(path, key) && k in e
    ensures AttributePasses(k, path, e, a, c) <==> k in a && (k != key ==> e[k] == a[k])
  {
    SignedFields(path, k);
    JoinedToken("@" + k);
    SameSign(k, key);
    AttributeRule(path, key, AttributePath(path, k), c);
    if k in a && k == key {
      TypePassesAnything(AttributePath(path, k), e[k], a[k], c);
    }
  }

  /** With `Type` for one attribute its value decides nothing, and all the others have to be equal. */
  lemma AttributeRuleExactly(so: seq<Mismatch>, path: Path, key: string, e: Element, a: Element, c: Context)
    requires path != [] && Addressable(path) && c.matchers == AttributeCategory(path, key)
    ensures Adds(so, AttributesAfter(so, path, e, a, c), OthersAgree(c.config, key, AttributeMap(e.attributes), AttributeMap(a.attributes)))
  {
    var expected, actual := AttributeMap(e.attributes), AttributeMap(a.attributes);
    AttributesAccepted(so, path, e, a, c);
    forall k | k in expected ensures AttributePasses(k, path, expected, actual, c) <==> k in actual && (k != key ==> expected[k] == actual[k]) {
      OneAttributeRule(path, key, k, expected, actual, c);
    }
  }

  lemma NothingBesideAttribute(path: Path, key: string, part: string, c: Context)
    requires path != [] && Addressable(path) && c.matchers == AttributeCategory(path, key) && part != "@" + key
    ensures NothingBelow(c, JoinPath(path, part))
  {
    JoinedToken(part);
    forall p: Path | JoinPath(path, part) <= p ensures !MatcherIsDefined(c.matchers, p) && MatchersForExactPath(c.matchers, p) == [] {
      assert p[|path|] == JoinPath(path, part)[|path|] == TokenOf(part);
      AttributeRule(path, key, p, c);
    }
  }

  lemma NothingForTheRest(path: Path, key: string, a: Element, c: Context)
    requires path != [] && Addressable(path) && c.matchers == AttributeCategory(path, key) && "@" + key !in ChildNames(a)
    ensures !c.MatcherIsDefined(path) && !c.MatcherIsDefined(JoinPath(path, "#text")) && NothingAtChildren(c, path, a)
  {
    OneRule(c.matchers, path, 0);
    assert "#text"[0] != ("@" + key)[0];
    NothingBesideAttribute(path, key, "#text", c);
    forall name | name in ChildNames(a) ensures NothingBelow(c, JoinPath(path, name)) {
      NothingBesideAttribute(path, key, name, c);
    }
  }

  /** The rest of the element is compared as without rules. No XML name has the sign of an attribute. */
  lemma ElementRuleExactly(so: seq<Mismatch>, path: Path, key: string, e: Element, a: Element, c: Context)
    requires path != [] && Addressable(path) && c.matchers == AttributeCategory(path, key) && "@" + key !in ChildNames(a)
    ensures Adds(so, ElementAfter(so, path, e, a, c),
      && e.name == a.name
      && OthersAgree(c.config, key, AttributeMap(e.attributes), AttributeMap(a.attributes))
      && AllNamesAgree(c.config, e, a)
      && TextOf(e.children) == TextOf(a.children))
  {
    NothingForTheRest(path, key, a, c);
    if e.name == a.name {
      var first := AttributesAfter(so, path, e, a, c);
      var second := ChildrenAfter(first, path, e, a, c);
      AttributeRuleExactly(so, path, key, e, a, c);
      ChildrenExactly(first, path, e, a, c);
      var p := OthersAgree(c.config, key, AttributeMap(e.attributes), AttributeMap(a.attributes));
      AddsBoth(so, first, second, p, AllNamesAgree(c.config, e, a));
      TextExactly(second, path, e, a, c);
      AddsBoth(so, second, TextAfter(second, path, e, a, c), p && AllNamesAgree(c.config, e, a), TextOf(e.children) == TextOf(a.children));
    }
  }
}
