/** Comparing XML with the rule `Type` everywhere: the shape counts, and so do all child names. */
module XmlTypeLaws {
  import opened StringOrder
  import opened Paths
  import opened Rules
  import opened Contexts
  import opened RuleMatching
  import opened TypeRules
  import opened Xml
  import Text
  import opened XmlVerdicts
  import opened XmlLaws

  // Attribute names as the configuration wants them, but the same child names in any case; every actual
  // child is compared with the first expected one of its name.
  ghost predicate SameShape(config: DiffConfig, e: Element, a: Element)
    decreases e, 1
  {
    && e.name == a.name
    && KeysAgree(config, AttributeMap(e.attributes).Keys, AttributeMap(a.attributes).Keys)
    && ChildNames(e) == ChildNames(a)
    && forall name :: NameShapes(config, name, e, a)
  }

  predicate KeysAgree(config: DiffConfig, e: set<string>, a: set<string>) {
    if config == NoUnexpectedKeys then e == a else e <= a
  }

  ghost predicate NameShapes(config: DiffConfig, name: string, e: Element, a: Element)
    decreases e, 0
  {
    name in ChildNames(e) ==>
      forall i | 0 <= i < |Group(a, name)| :: SameShape(config, Group(e, name)[0], Group(a, name)[i])
  }

  lemma TypePasses(path: Path, e: string, a: string, c: Context)
    requires OnlyType(c, path)
    ensures TextVerdict(path, e, a, c).Ok?
  {
    var results := StringResults(c.SelectBestMatcher(path), e, a, c.foreign);
    assert c.MatcherIsDefined(path) && c.SelectBestMatcher(path).rules[0] == Type;
    assert results == [true];
    CombinedExactly(path, c.SelectBestMatcher(path).logic, results);
  }

  lemma TypeName(path: Path, e: Element, a: Element, c: Context)
    requires OnlyType(c, path)
    ensures ElementVerdict(path, e, a, c).Ok? <==> e.name == a.name
    ensures Justified(ElementVerdict(path, e, a, c), path)
  {
    var list := c.SelectBestMatcher(path);
    var results := ElementResults(list, e, a, c.foreign);
    assert c.MatcherIsDefined(path) && list.rules[0] == Type;
    assert results == [e.name == a.name];
    CombinedExactly(path, list.logic, results);
  }

  // ---- Attributes

  lemma AttributeName(so: seq<Mismatch>, keys: seq<string>, i: nat, path: Path, e: map<string, string>, a: map<string, string>, c: Context)
    requires OnlyType(c, path) && 0 < i <= |keys| && forall k <- keys :: k in e
    ensures Adds(AttributeValuesAfter(so, keys, i - 1, path, e, a, c), AttributeValuesAfter(so, keys, i, path, e, a, c), keys[i - 1] in a.Keys)
  {
    var key := keys[i - 1];
    assert key in keys;
    OnlyTypeBelow(c, path, "@" + key);
    if key in a {
      TypePasses(JoinPath(path, "@" + key), e[key], a[key], c);
    }
  }

  predicate FirstKeysIn(keys: seq<string>, i: nat, a: set<string>)
    requires i <= |keys|
  {
    forall j | 0 <= j < i :: keys[j] in a
  }

  lemma NextKeyIn(keys: seq<string>, i: nat, a: set<string>)
    requires 0 < i <= |keys|
    ensures FirstKeysIn(keys, i, a) <==> FirstKeysIn(keys, i - 1, a) && keys[i - 1] in a
  {
  }

  lemma {:induction false} AttributeNames(so: seq<Mismatch>, keys: seq<string>, i: nat, path: Path,
                                          e: map<string, string>, a: map<string, string>, c: Context)
    requires OnlyType(c, path) && i <= |keys| && forall k <- keys :: k in e
    ensures Adds(so, AttributeValuesAfter(so, keys, i, path, e, a, c), FirstKeysIn(keys, i, a.Keys))
  {
    if i > 0 {
      var next, after := AttributeValuesAfter(so, keys, i - 1, path, e, a, c), AttributeValuesAfter(so, keys, i, path, e, a, c);
      AttributeNames(so, keys, i - 1, path, e, a, c);
      AttributeName(so, keys, i, path, e, a, c);
      NextKeyIn(keys, i, a.Keys);
      AddsBoth(so, next, after, FirstKeysIn(keys, i - 1, a.Keys), keys[i - 1] in a.Keys);
    }
  }

  lemma TypeAttributes(so: seq<Mismatch>, path: Path, e: Element, a: Element, c: Context)
    requires OnlyType(c, path)
    ensures Adds(so, AttributesAfter(so, path, e, a, c),
      KeysAgree(c.config, AttributeMap(e.attributes).Keys, AttributeMap(a.attributes).Keys))
  {
    var expected, actual := AttributeMap(e.attributes), AttributeMap(a.attributes);
    var keys := SortedKeys(expected.Keys);
    AttributeNames(CountAfter(so, path, |expected|, |actual|, c), keys, |keys|, path, expected, actual, c);
    AllKeysIn(keys, expected.Keys, actual.Keys);
    assert |expected| == |expected.Keys| && |actual| == |actual.Keys|;
    if expected.Keys <= actual.Keys {
      SubsetOfSameSize(expected.Keys, actual.Keys);
    }
  }

  lemma AllKeysIn(keys: seq<string>, e: set<string>, a: set<string>)
    requires forall k :: k in keys <==> k in e
    ensures FirstKeysIn(keys, |keys|, a) <==> e <= a
  {
    if e <= a {
      forall j | 0 <= j < |keys| ensures keys[j] in a {
        assert keys[j] in keys;
      }
    } else {
      var k :| k in e && k !in a;
      assert k in keys;
    }
  }

  // ---- Children

  // Comparing with this element is comparing shapes.
  ghost predicate ShapeDecides(path: Path, first: Element, c: Context) {
    forall so, a :: Adds(so, ElementAfter(so, path, first, a, c), SameShape(c.config, first, a))
  }

  lemma {:induction false} TypeAll(so: seq<Mismatch>, path: Path, first: Element, actual: seq<Element>, i: nat, c: Context, whole: Element)
    requires ShapeDecides(path, first, c) && i <= |actual| && first < whole
    ensures Adds(so, AllAfter(so, path, first, actual, i, c, whole), FirstShapes(c.config, first, actual, i))
    decreases i
  {
    if i > 0 {
      var next, last := AllAfter(so, path, first, actual, i - 1, c, whole), actual[i - 1];
      TypeAll(so, path, first, actual, i - 1, c, whole);
      NextShapes(c.config, first, actual, i);
      AddsBoth(so, next, ElementAfter(next, path, first, last, c), FirstShapes(c.config, first, actual, i - 1), SameShape(c.config, first, last));
    }
  }

  ghost predicate FirstShapes(config: DiffConfig, first: Element, actual: seq<Element>, i: nat)
    requires i <= |actual|
  {
    forall j :: 0 <= j < i ==> SameShape(config, first, actual[j])
  }

  lemma NextShapes(config: DiffConfig, first: Element, actual: seq<Element>, i: nat)
    requires 0 < i <= |actual|
    ensures FirstShapes(config, first, actual, i) <==>
      FirstShapes(config, first, actual, i - 1) && SameShape(config, first, actual[i - 1])
  {
  }

  ghost predicate NamePasses(config: DiffConfig, name: string, e: Element, a: Element) {
    name in ChildNames(e) && NameShapes(config, name, e, a)
  }

  lemma {:induction false} TypeGroup(so: seq<Mismatch>, name: string, path: Path, e: Element, a: Element, c: Context)
    requires OnlyType(c, path)
    ensures Adds(so, GroupAfter(so, name, path, e, a, c), NamePasses(c.config, name, e, a))
    decreases e, 1, 0
  {
    var p := JoinPath(path, name);
    var expected, actual := Group(e, name), Group(a, name);
    OnlyTypeBelow(c, path, name);
    assert c.MatcherIsDefined(p) && TypeMatcherDefined(c.matchers, p);
    if expected != [] {
      forall so, a ensures Adds(so, ElementAfter(so, p, expected[0], a, c), SameShape(c.config, expected[0], a)) {
        XmlTypeExactly(so, p, expected[0], a, c);
      }
      TypeAll(so, p, expected[0], actual, |actual|, c, e);
      assert FirstShapes(c.config, expected[0], actual, |actual|) <==> NameShapes(c.config, name, e, a);
    }
  }

  ghost predicate FirstNamesPass(config: DiffConfig, names: seq<string>, i: nat, e: Element, a: Element)
    requires i <= |names|
  {
    forall j :: 0 <= j < i ==> NamePasses(config, names[j], e, a)
  }

  lemma NextNamePasses(config: DiffConfig, names: seq<string>, i: nat, e: Element, a: Element)
    requires 0 < i <= |names|
    ensures FirstNamesPass(config, names, i, e, a) <==>
      FirstNamesPass(config, names, i - 1, e, a) && NamePasses(config, names[i - 1], e, a)
  {
  }

  lemma {:induction false} TypeGroups(so: seq<Mismatch>, names: seq<string>, i: nat, path: Path, e: Element, a: Element, c: Context)
    requires OnlyType(c, path) && i <= |names|
    ensures Adds(so, GroupsAfter(so, names, i, path, e, a, c), FirstNamesPass(c.config, names, i, e, a))
    decreases e, 2, i
  {
    if i > 0 {
      var name := names[i - 1];
      var next, after := GroupsAfter(so, names, i - 1, path, e, a, c), GroupsAfter(so, names, i, path, e, a, c);
      TypeGroups(so, names, i - 1, path, e, a, c);
      TypeGroup(next, name, path, e, a, c);
      NextNamePasses(c.config, names, i, e, a);
      AddsBoth(so, next, after, FirstNamesPass(c.config, names, i - 1, e, a), NamePasses(c.config, name, e, a));
    }
  }

  ghost predicate ChildrenShape(config: DiffConfig, e: Element, a: Element) {
    ChildNames(e) == ChildNames(a) && forall name :: NameShapes(config, name, e, a)
  }

  lemma NoNameNoShape(config: DiffConfig, name: string, e: Element, a: Element)
    requires name !in ChildNames(a)
    ensures NameShapes(config, name, e, a)
  {
    assert |Group(a, name)| == 0;
  }

  // All actual names pass and no expected one is missing exactly when the children have the same shape.
  lemma NamesPass(config: DiffConfig, names: seq<string>, e: Element, a: Element)
    requires forall name :: name in names <==> name in ChildNames(a)
    ensures ChildrenShape(config, e, a) <==> FirstNamesPass(config, names, |names|, e, a) && ChildNames(e) <= ChildNames(a)
  {
    if ChildrenShape(config, e, a) {
      forall j | 0 <= j < |names| ensures NamePasses(config, names[j], e, a) {
        assert names[j] in names;
      }
    }
    if FirstNamesPass(config, names, |names|, e, a) && ChildNames(e) <= ChildNames(a) {
      forall name ensures NameShapes(config, name, e, a) && (name in ChildNames(a) ==> name in ChildNames(e)) {
        if name in ChildNames(a) {
          assert name in names;
          var j :| 0 <= j < |names| && names[j] == name;
          assert NamePasses(config, names[j], e, a);
        } else {
          NoNameNoShape(config, name, e, a);
        }
      }
      assert ChildNames(e) == ChildNames(a);
    }
  }

  lemma {:induction false} TypeChildren(so: seq<Mismatch>, path: Path, e: Element, a: Element, c: Context)
    requires OnlyType(c, path)
    ensures Adds(so, ChildrenAfter(so, path, e, a, c), ChildrenShape(c.config, e, a))
    decreases e, 3, 0
  {
    NoChildren(e);
    NoChildren(a);
    if Elements(e.children) != [] || Elements(a.children) == [] || c.config != NoUnexpectedKeys {
      var names, missing := SortedKeys(ChildNames(a)), SortedKeys(ChildNames(e) - ChildNames(a));
      var grouped := GroupsAfter(so, names, |names|, path, e, a, c);
      TypeGroups(so, names, |names|, path, e, a, c);
      MissingExactly(grouped, missing, |missing|, path);
      NoneMissing(missing, ChildNames(e), ChildNames(a));
      NamesPass(c.config, names, e, a);
      AddsBoth(so, grouped, MissingAfter(grouped, missing, |missing|, path), FirstNamesPass(c.config, names, |names|, e, a), |missing| == 0);
    }
  }

  /** With `Type` everywhere, no mismatch is pushed exactly when the elements have the same shape. */
  lemma {:induction false} XmlTypeExactly(so: seq<Mismatch>, path: Path, e: Element, a: Element, c: Context)
    requires OnlyType(c, path)
    ensures Adds(so, ElementAfter(so, path, e, a, c), SameShape(c.config, e, a))
    decreases e, 4, 0
  {
    TypeName(path, e, a, c);
    if e.name == a.name {
      var first := AttributesAfter(so, path, e, a, c);
      var second := ChildrenAfter(first, path, e, a, c);
      var p := KeysAgree(c.config, AttributeMap(e.attributes).Keys, AttributeMap(a.attributes).Keys);
      TypeAttributes(so, path, e, a, c);
      TypeChildren(first, path, e, a, c);
      AddsBoth(so, first, second, p, ChildrenShape(c.config, e, a));
      OnlyTypeBelow(c, path, "#text");
      TypeText(second, path, e, a, c);
    }
  }

  lemma TypeText(so: seq<Mismatch>, path: Path, e: Element, a: Element, c: Context)
    requires OnlyType(c, JoinPath(path, "#text"))
    ensures TextAfter(so, path, e, a, c) == so
  {
    var p := JoinPath(path, "#text");
    var expected, actual := TextOf(e.children), TextOf(a.children);
    TypePasses(p, Text.Trim(expected), Text.Trim(actual), c);
    assert c.MatcherIsDefined(p);
  }

  /** So, other than for JSON, the rule can reject what is accepted without it: a child of an unexpected name,
    * where unexpected ones are allowed. */
  lemma TypeRejectsUnexpectedChild(path: Path, e: Element, a: Element, plain: Context, typed: Context)
    requires NoRules(plain) && OnlyType(typed, path) && plain.config == typed.config == AllowUnexpectedKeys
    requires Agrees(AllowUnexpectedKeys, e, a) && !(ChildNames(a) <= ChildNames(e))
    ensures VerdictOf(ElementAfter([], path, e, a, plain)).Ok?
    ensures VerdictOf(ElementAfter([], path, e, a, typed)).Err?
  {
    NoRulesBelow(plain, path);
    XmlAcceptedExactly(path, e, a, plain);
    XmlTypeExactly([], path, e, a, typed);
  }

  // Such as any child for an expected element without children.
  lemma UnexpectedChildExample(name: QName, child: Element)
    ensures var e, a := Element(name, [], []), Element(name, [], [ElementNode(child)]);
      Agrees(AllowUnexpectedKeys, e, a) && !(ChildNames(a) <= ChildNames(e))
  {
    var e, a := Element(name, [], []), Element(name, [], [ElementNode(child)]);
    assert a.children[..0] == [];
    assert Elements(e.children) == [] && Elements(a.children) == [child];
    NoChildren(e);
    NoChildren(a);
    forall name ensures NameAgrees(AllowUnexpectedKeys, name, e, a) {
      assert |Group(e, name)| == 0;
    }
  }
}
