/** Allowing unexpected attributes and children never turns an accepted element away, whatever the rules of a body are. */
module XmlConfigLaws {
  import opened StringOrder
  import opened Paths
  import opened Rules
  import opened Contexts
  import opened Xml
  import opened XmlVerdicts
  import opened SettledRules

  // Two contexts with the same rules, the second of which is no stricter about unexpected attributes and
  // children. The lists that each may find first are the same where it matters, as they are in every body.
  ghost predicate Relaxes(c: Context, d: Context) {
    && (d.config == NoUnexpectedKeys ==> c.config == NoUnexpectedKeys)
    && c.matchers == d.matchers && c.foreign == d.foreign && forall path :: SelectsOneAt(c.matchers, path)
  }

  lemma SameSelection(path: Path, c: Context, d: Context)
    requires Relaxes(c, d)
    ensures c.MatcherIsDefined(path) == d.MatcherIsDefined(path) && c.SelectBestMatcher(path) == d.SelectBestMatcher(path)
  {
    SelectedIsOne(c.matchers, path, c.first(Best(path, c.turns)), d.first(Best(path, d.turns)));
  }

  // The strict comparison took nothing away, and where it added nothing the lenient one added nothing either.
  predicate Weaker(so: seq<Mismatch>, strict: seq<Mismatch>, lenient: seq<Mismatch>) {
    |strict| >= |so| && (|strict| == |so| ==> strict == so && lenient == so)
  }

  lemma WeakerBoth(so: seq<Mismatch>, strict: seq<Mismatch>, lenient: seq<Mismatch>,
                   moreStrict: seq<Mismatch>, moreLenient: seq<Mismatch>)
    requires Weaker(so, strict, lenient)
    requires lenient == strict ==> Weaker(strict, moreStrict, moreLenient)
    requires |moreStrict| >= |strict|
    ensures Weaker(so, moreStrict, moreLenient)
  {
  }

  lemma TextWeaker(so: seq<Mismatch>, path: Path, e: Element, a: Element, c: Context, d: Context)
    requires Relaxes(c, d)
    ensures Weaker(so, TextAfter(so, path, e, a, c), TextAfter(so, path, e, a, d))
  {
    SameSelection(JoinPath(path, "#text"), c, d);
  }

  // ---- Attributes

  lemma {:induction false} ValuesGrow(so: seq<Mismatch>, keys: seq<string>, i: nat, path: Path,
                                      e: map<string, string>, a: map<string, string>, c: Context, d: Context)
    requires Relaxes(c, d) && i <= |keys| && forall k <- keys :: k in e
    ensures Weaker(so, AttributeValuesAfter(so, keys, i, path, e, a, c), AttributeValuesAfter(so, keys, i, path, e, a, c))
    ensures AttributeValuesAfter(so, keys, i, path, e, a, c) == AttributeValuesAfter(so, keys, i, path, e, a, d)
  {
    if i > 0 {
      ValuesGrow(so, keys, i - 1, path, e, a, c, d);
      SameSelection(JoinPath(path, "@" + keys[i - 1]), c, d);
      assert keys[i - 1] in keys;
    }
  }

  lemma AttributesWeaker(so: seq<Mismatch>, path: Path, e: Element, a: Element, c: Context, d: Context)
    requires Relaxes(c, d)
    ensures Weaker(so, AttributesAfter(so, path, e, a, c), AttributesAfter(so, path, e, a, d))
  {
    var expected, actual := AttributeMap(e.attributes), AttributeMap(a.attributes);
    var keys := SortedKeys(expected.Keys);
    ValuesGrow(CountAfter(so, path, |expected|, |actual|, c), keys, |keys|, path, expected, actual, c, d);
  }

  // ---- Children

  lemma {:induction false} MissingGrows(so: seq<Mismatch>, names: seq<string>, i: nat, path: Path)
    requires i <= |names|
    ensures |MissingAfter(so, names, i, path)| == |so| + i && (i == 0 ==> MissingAfter(so, names, i, path) == so)
  {
    if i > 0 {
      MissingGrows(so, names, i - 1, path);
    }
  }

  lemma {:induction false} ChildrenWeaker(so: seq<Mismatch>, path: Path, e: Element, a: Element, c: Context, d: Context)
    requires Relaxes(c, d)
    ensures Weaker(so, ChildrenAfter(so, path, e, a, c), ChildrenAfter(so, path, e, a, d))
    decreases e, 3, 0
  {
    var names, missing := SortedKeys(ChildNames(a)), SortedKeys(ChildNames(e) - ChildNames(a));
    var strict, lenient := GroupsAfter(so, names, |names|, path, e, a, c), GroupsAfter(so, names, |names|, path, e, a, d);
    GroupsWeaker(so, names, |names|, path, e, a, c, d);
    MissingGrows(strict, missing, |missing|, path);
    MissingGrows(lenient, missing, |missing|, path);
  }

  lemma {:induction false} GroupsWeaker(so: seq<Mismatch>, names: seq<string>, i: nat, path: Path, e: Element, a: Element, c: Context, d: Context)
    requires i <= |names| && Relaxes(c, d)
    ensures Weaker(so, GroupsAfter(so, names, i, path, e, a, c), GroupsAfter(so, names, i, path, e, a, d))
    decreases e, 2, i
  {
    if i > 0 {
      var strict, lenient := GroupsAfter(so, names, i - 1, path, e, a, c), GroupsAfter(so, names, i - 1, path, e, a, d);
      GroupsWeaker(so, names, i - 1, path, e, a, c, d);
      GroupWeaker(strict, names[i - 1], path, e, a, c, d);
      WeakerBoth(so, strict, lenient, GroupAfter(strict, names[i - 1], path, e, a, c), GroupAfter(lenient, names[i - 1], path, e, a, d));
    }
  }

  lemma {:induction false} GroupWeaker(so: seq<Mismatch>, name: string, path: Path, e: Element, a: Element, c: Context, d: Context)
    requires Relaxes(c, d)
    ensures Weaker(so, GroupAfter(so, name, path, e, a, c), GroupAfter(so, name, path, e, a, d))
    decreases e, 1, 0
  {
    var p := JoinPath(path, name);
    var expected, actual := Group(e, name), Group(a, name);
    if expected != [] {
      if TypeMatcherDefined(c.matchers, p) {
        AllWeaker(so, p, expected[0], actual, |actual|, c, d, e);
      } else {
        PairsWeaker(so, p, expected, actual, PairsLength(expected, actual), c, d, e);
      }
    }
  }

  lemma {:induction false} AllWeaker(so: seq<Mismatch>, path: Path, first: Element, actual: seq<Element>, i: nat, c: Context, d: Context, whole: Element)
    requires i <= |actual| && first < whole && Relaxes(c, d)
    ensures Weaker(so, AllAfter(so, path, first, actual, i, c, whole), AllAfter(so, path, first, actual, i, d, whole))
    decreases whole, 0, i
  {
    if i > 0 {
      var strict, lenient := AllAfter(so, path, first, actual, i - 1, c, whole), AllAfter(so, path, first, actual, i - 1, d, whole);
      AllWeaker(so, path, first, actual, i - 1, c, d, whole);
      ElementWeaker(strict, path, first, actual[i - 1], c, d);
      WeakerBoth(so, strict, lenient, ElementAfter(strict, path, first, actual[i - 1], c), ElementAfter(lenient, path, first, actual[i - 1], d));
    }
  }

  lemma {:induction false} PairsWeaker(so: seq<Mismatch>, path: Path, e: seq<Element>, a: seq<Element>, i: nat, c: Context, d: Context, whole: Element)
    requires i <= PairsLength(e, a) && PartsOf(e, whole) && Relaxes(c, d)
    ensures Weaker(so, PairsAfter(so, path, e, a, i, c, whole), PairsAfter(so, path, e, a, i, d, whole))
    decreases whole, 0, i
  {
    if i > 0 {
      var strict, lenient := PairsAfter(so, path, e, a, i - 1, c, whole), PairsAfter(so, path, e, a, i - 1, d, whole);
      PairsWeaker(so, path, e, a, i - 1, c, d, whole);
      PairWeaker(strict, path, e, a, i - 1, c, d, whole);
      WeakerBoth(so, strict, lenient, PairAfter(strict, path, e, a, i - 1, c, whole), PairAfter(lenient, path, e, a, i - 1, d, whole));
    }
  }

  lemma {:induction false} PairWeaker(so: seq<Mismatch>, path: Path, e: seq<Element>, a: seq<Element>, i: nat, c: Context, d: Context, whole: Element)
    requires i < PairsLength(e, a) && PartsOf(e, whole) && Relaxes(c, d)
    ensures Weaker(so, PairAfter(so, path, e, a, i, c, whole), PairAfter(so, path, e, a, i, d, whole))
    decreases whole, 0, 0
  {
    if i < |e| && i < |a| {
      ElementWeaker(so, path, e[i], a[i], c, d);
    }
  }

  lemma {:induction false} ElementWeaker(so: seq<Mismatch>, path: Path, e: Element, a: Element, c: Context, d: Context)
    requires Relaxes(c, d)
    ensures Weaker(so, ElementAfter(so, path, e, a, c), ElementAfter(so, path, e, a, d))
    decreases e, 4, 0
  {
    var v := ElementVerdict(path, e, a, c);
    SameSelection(path, c, d);
    if v.Ok? {
      var first, second := AttributesAfter(so, path, e, a, c), AttributesAfter(so, path, e, a, d);
      AttributesWeaker(so, path, e, a, c, d);
      var strict, lenient := ChildrenAfter(first, path, e, a, c), ChildrenAfter(second, path, e, a, d);
      ChildrenWeaker(first, path, e, a, c, d);
      WeakerBoth(so, first, second, strict, lenient);
      TextWeaker(strict, path, e, a, c, d);
      WeakerBoth(so, strict, lenient, TextAfter(strict, path, e, a, c), TextAfter(lenient, path, e, a, d));
    }
  }

  /** Whatever XML one context accepts, another one with the same rules accepts too that is no stricter about what
    * is unexpected. */
  lemma LenientIsWeaker(path: Path, e: Element, a: Element, c: Context, d: Context)
    requires Relaxes(c, d) && VerdictOf(ElementAfter([], path, e, a, c)).Ok?
    ensures VerdictOf(ElementAfter([], path, e, a, d)).Ok?
  {
    ElementWeaker([], path, e, a, c, d);
  }
}
