/** Exactly when the rule `Type` rejects XML that is accepted without rules. */
module XmlTypeLimits {
  import opened Wrappers
  import opened Grouping
  import opened Paths
  import opened Contexts
  import opened TypeRules
  import opened Xml
  import opened XmlVerdicts
  import opened XmlLaws
  import opened XmlTypeLaws

  // What agreement says about the groups of one name.
  lemma GroupsThatAgree(config: DiffConfig, name: string, e: Element, a: Element)
    requires Agrees(config, e, a)
    ensures if config == NoUnexpectedKeys then |Group(e, name)| == |Group(a, name)| else |Group(e, name)| <= |Group(a, name)|
    ensures forall i | 0 <= i < |Group(e, name)| :: Agrees(config, Group(e, name)[i], Group(a, name)[i])
  {
    assert NameAgrees(config, name, e, a);
    MatchingGroups(config, name, e, a);
  }

  lemma MatchingGroups(config: DiffConfig, name: string, e: Element, a: Element)
    requires NameAgrees(config, name, e, a)
    ensures if config == NoUnexpectedKeys then |Group(e, name)| == |Group(a, name)| else |Group(e, name)| <= |Group(a, name)|
    ensures forall i | 0 <= i < |Group(e, name)| :: Agrees(config, Group(e, name)[i], Group(a, name)[i])
  {
  }

  // ---- Without unexpected keys

  lemma SameChildNames(e: Element, a: Element)
    requires Agrees(NoUnexpectedKeys, e, a)
    ensures ChildNames(e) == ChildNames(a)
  {
    forall name ensures name in ChildNames(e) <==> name in ChildNames(a) {
      GroupsThatAgree(NoUnexpectedKeys, name, e, a);
    }
  }

  // Elements that agree have the same shape as the same elements.
  lemma {:induction false} ShapeOfEqual(x: Element, e: Element, a: Element)
    requires Agrees(NoUnexpectedKeys, e, a)
    ensures SameShape(NoUnexpectedKeys, x, e) <==> SameShape(NoUnexpectedKeys, x, a)
    decreases x
  {
    SameChildNames(e, a);
    forall name ensures NameShapes(NoUnexpectedKeys, name, x, e) <==> NameShapes(NoUnexpectedKeys, name, x, a) {
      GroupsThatAgree(NoUnexpectedKeys, name, e, a);
      var first, expected, actual := Group(x, name), Group(e, name), Group(a, name);
      if name in ChildNames(x) {
        forall i | 0 <= i < |expected|
          ensures SameShape(NoUnexpectedKeys, first[0], expected[i]) <==> SameShape(NoUnexpectedKeys, first[0], actual[i])
        {
          ShapeOfEqual(first[0], expected[i], actual[i]);
        }
      }
    }
    ShapesByName(x, e, a);
  }

  lemma ShapesByName(x: Element, e: Element, a: Element)
    requires e.name == a.name && AttributeMap(e.attributes) == AttributeMap(a.attributes) && ChildNames(e) == ChildNames(a)
    requires forall name :: NameShapes(NoUnexpectedKeys, name, x, e) <==> NameShapes(NoUnexpectedKeys, name, x, a)
    ensures SameShape(NoUnexpectedKeys, x, e) <==> SameShape(NoUnexpectedKeys, x, a)
  {
  }

  /** What is accepted without rules and without unexpected keys is accepted with `Type` everywhere exactly
    * when the expected element has the shape of itself: its same-named siblings have that of the first. */
  lemma TypeRejectsExactly(path: Path, e: Element, a: Element, plain: Context, typed: Context)
    requires NoRules(plain) && OnlyType(typed, path) && plain.config == typed.config == NoUnexpectedKeys
    requires VerdictOf(ElementAfter([], path, e, a, plain)).Ok?
    ensures VerdictOf(ElementAfter([], path, e, a, typed)).Ok? <==> SameShape(NoUnexpectedKeys, e, e)
  {
    NoRulesBelow(plain, path);
    XmlAcceptedExactly(path, e, a, plain);
    XmlTypeExactly([], path, e, a, typed);
    ShapeOfEqual(e, e, a);
  }

  // ---- Allowing unexpected keys

  // At every level all actual names are expected, and each actual child has the shape of the first expected
  // one of its name; the first actual one has it if it fits.
  ghost predicate Fits(e: Element, a: Element)
    decreases e, 1
  {
    ChildNames(a) <= ChildNames(e) && forall name :: NameFits(name, e, a)
  }

  ghost predicate NameFits(name: string, e: Element, a: Element)
    decreases e, 0
  {
    name in ChildNames(a) && name in ChildNames(e) ==>
      && Fits(Group(e, name)[0], Group(a, name)[0])
      && forall i | 1 <= i < |Group(a, name)| :: SameShape(AllowUnexpectedKeys, Group(e, name)[0], Group(a, name)[i])
  }

  lemma {:induction false} FitsExactly(e: Element, a: Element)
    requires Agrees(AllowUnexpectedKeys, e, a)
    ensures SameShape(AllowUnexpectedKeys, e, a) <==> Fits(e, a)
    decreases e
  {
    forall name | name in ChildNames(e) ensures name in ChildNames(a) {
      ExpectedNameIsThere(AllowUnexpectedKeys, name, e, a);
    }
    assert ChildNames(e) <= ChildNames(a);
    forall name | name in ChildNames(e) ensures NameShapes(AllowUnexpectedKeys, name, e, a) <==> NameFits(name, e, a) {
      GroupsThatAgree(AllowUnexpectedKeys, name, e, a);
      FitsExactly(Group(e, name)[0], Group(a, name)[0]);
    }
    FitsByName(e, a);
  }

  lemma FitsByName(e: Element, a: Element)
    requires e.name == a.name && AttributeMap(e.attributes).Keys <= AttributeMap(a.attributes).Keys && ChildNames(e) <= ChildNames(a)
    requires forall name | name in ChildNames(e) :: NameShapes(AllowUnexpectedKeys, name, e, a) <==> NameFits(name, e, a)
    ensures SameShape(AllowUnexpectedKeys, e, a) <==> Fits(e, a)
  {
    if SameShape(AllowUnexpectedKeys, e, a) {
      forall name ensures NameFits(name, e, a) {
        assert NameShapes(AllowUnexpectedKeys, name, e, a);
      }
    }
    if Fits(e, a) {
      assert ChildNames(e) == ChildNames(a);
      forall name ensures NameShapes(AllowUnexpectedKeys, name, e, a) {
        assert NameFits(name, e, a);
      }
    }
  }

  /** What is accepted without rules, allowing unexpected keys, is accepted with `Type` everywhere exactly
    * when it fits. */
  lemma TypeRejectsMoreExactly(path: Path, e: Element, a: Element, plain: Context, typed: Context)
    requires NoRules(plain) && OnlyType(typed, path) && plain.config == typed.config == AllowUnexpectedKeys
    requires VerdictOf(ElementAfter([], path, e, a, plain)).Ok?
    ensures VerdictOf(ElementAfter([], path, e, a, typed)).Ok? <==> Fits(e, a)
  {
    NoRulesBelow(plain, path);
    XmlAcceptedExactly(path, e, a, plain);
    XmlTypeExactly([], path, e, a, typed);
    FitsExactly(e, a);
  }

  // ---- Elements for which it does

  // `<r><c/><c><d/></c></r>`, which is not even accepted against itself.
  function Uneven(): Element {
    var c, d := QName(None, "c"), QName(None, "d");
    Element(QName(None, "r"), [], [ElementNode(Element(c, [], [])), ElementNode(Element(c, [], [ElementNode(Element(d, [], []))]))])
  }

  lemma OneChild(e: Element, child: Element)
    requires e.children == [ElementNode(child)]
    ensures ElementName(child) in ChildNames(e)
  {
    assert e.children[..0] == [];
    assert Elements(e.children) == [child];
    assert NamedChildren(e)[0].0 == ElementName(child);
  }

  lemma TwoChildren(e: Element, first: Element, second: Element)
    requires e.children == [ElementNode(first), ElementNode(second)] && ElementName(first) == ElementName(second)
    ensures Group(e, ElementName(first)) == [first, second]
  {
    assert e.children[..1] == [ElementNode(first)] && e.children[..1][..0] == [];
    assert Elements(e.children[..1]) == [first];
    assert Elements(e.children) == [first, second];
    var name := ElementName(first);
    assert NamedChildren(e) == [(name, first), (name, second)];
    assert NamedChildren(e)[..1] == [(name, first)] && NamedChildren(e)[..1][..0] == [];
    assert ValuesOf(NamedChildren(e)[..1], name) == [first];
  }

  lemma UnevenSiblings(config: DiffConfig)
    ensures Agrees(config, Uneven(), Uneven()) && !SameShape(config, Uneven(), Uneven())
  {
    var r := Uneven();
    var first, second := r.children[0].element, r.children[1].element;
    AgreesWithItself(config, r);
    TwoChildren(r, first, second);
    OneChild(second, Element(QName(None, "d"), [], []));
    NoChildren(first);
    assert "c" in ChildNames(r);
    assert !SameShape(config, first, second);
    assert !NameShapes(config, "c", r, r);
  }

  /** With no unexpected name at all and under either configuration, an element can be accepted against
    * itself without rules and rejected with `Type`. */
  lemma UnevenSiblingsAreRejected(path: Path, plain: Context, typed: Context)
    requires NoRules(plain) && OnlyType(typed, path) && plain.config == typed.config
    ensures VerdictOf(ElementAfter([], path, Uneven(), Uneven(), plain)).Ok?
    ensures VerdictOf(ElementAfter([], path, Uneven(), Uneven(), typed)).Err?
  {
    UnevenSiblings(plain.config);
    NoRulesBelow(plain, path);
    XmlAcceptedExactly(path, Uneven(), Uneven(), plain);
    XmlTypeExactly([], path, Uneven(), Uneven(), typed);
  }
}
