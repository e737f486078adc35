/** Every mismatch the XML comparator pushes lies at or below the path it started from. */
module XmlPathLaws {
  import opened StringOrder
  import opened Paths
  import opened Rules
  import opened Contexts
  import opened RuleMatching
  import opened Xml
  import Text
  import opened XmlVerdicts

  lemma CollectUnder(top: Path, so: seq<Mismatch>, v: Verdict, path: Path)
    requires AllUnder(top, so) && top <= path && Justified(v, path)
    ensures AllUnder(top, Collect(so, v))
  {
  }

  lemma PushUnder(top: Path, so: seq<Mismatch>, m: Mismatch)
    requires AllUnder(top, so) && top <= m.path
    ensures AllUnder(top, so + [m])
  {
  }

  lemma TextJustified(path: Path, e: string, a: string, c: Context)
    ensures Justified(TextVerdict(path, e, a, c), path)
  {
    var list := c.SelectBestMatcher(path);
    CombinedExactly(path, list.logic, StringResults(list, e, a, c.foreign));
  }

  lemma ElementJustified(path: Path, e: Element, a: Element, c: Context)
    ensures Justified(ElementVerdict(path, e, a, c), path)
  {
    var list := c.SelectBestMatcher(path);
    CombinedExactly(path, list.logic, ElementResults(list, e, a, c.foreign));
  }

  lemma TextUnder(top: Path, so: seq<Mismatch>, path: Path, e: Element, a: Element, c: Context)
    requires AllUnder(top, so) && top <= path
    ensures AllUnder(top, TextAfter(so, path, e, a, c))
  {
    var p := JoinPath(path, "#text");
    var expected, actual := TextOf(e.children), TextOf(a.children);
    var v := TextVerdict(p, if c.MatcherIsDefined(p) then Text.Trim(expected) else expected, Text.Trim(actual), c);
    TextJustified(p, if c.MatcherIsDefined(p) then Text.Trim(expected) else expected, Text.Trim(actual), c);
    CollectUnder(top, so, v, p);
  }

  lemma {:induction false} AttributeValuesUnder(top: Path, so: seq<Mismatch>, keys: seq<string>, i: nat, path: Path,
                                                e: map<string, string>, a: map<string, string>, c: Context)
    requires i <= |keys| && forall k <- keys :: k in e
    requires AllUnder(top, so) && top <= path
    ensures AllUnder(top, AttributeValuesAfter(so, keys, i, path, e, a, c))
  {
    if i > 0 {
      var key := keys[i - 1];
      var next, p := AttributeValuesAfter(so, keys, i - 1, path, e, a, c), JoinPath(path, "@" + key);
      assert key in keys;
      AttributeValuesUnder(top, so, keys, i - 1, path, e, a, c);
      if key in a {
        TextJustified(p, e[key], a[key], c);
        CollectUnder(top, next, TextVerdict(p, e[key], a[key], c), p);
      } else {
        PushUnder(top, next, Mismatch(p, MissingAttribute));
      }
    }
  }

  lemma AttributesUnder(top: Path, so: seq<Mismatch>, path: Path, e: Element, a: Element, c: Context)
    requires AllUnder(top, so) && top <= path
    ensures AllUnder(top, AttributesAfter(so, path, e, a, c))
  {
    var expected, actual := AttributeMap(e.attributes), AttributeMap(a.attributes);
    var keys := SortedKeys(expected.Keys);
    var counted := CountAfter(so, path, |expected|, |actual|, c);
    PushUnder(top, so, Mismatch(path, UnexpectedAttributes));
    PushUnder(top, so, Mismatch(path, AttributeCount));
    AttributeValuesUnder(top, counted, keys, |keys|, path, expected, actual, c);
  }

  lemma {:induction false} MissingUnder(top: Path, so: seq<Mismatch>, names: seq<string>, i: nat, path: Path)
    requires i <= |names| && AllUnder(top, so) && top <= path
    ensures AllUnder(top, MissingAfter(so, names, i, path))
  {
    if i > 0 {
      MissingUnder(top, so, names, i - 1, path);
      PushUnder(top, MissingAfter(so, names, i - 1, path), Mismatch(path, MissingChild));
    }
  }

  lemma {:induction false} ChildrenUnder(top: Path, so: seq<Mismatch>, path: Path, e: Element, a: Element, c: Context)
    requires AllUnder(top, so) && top <= path
    ensures AllUnder(top, ChildrenAfter(so, path, e, a, c))
    decreases e, 3, 0
  {
    var names, missing := SortedKeys(ChildNames(a)), SortedKeys(ChildNames(e) - ChildNames(a));
    PushUnder(top, so, Mismatch(path, UnexpectedChild));
    GroupsUnder(top, so, names, |names|, path, e, a, c);
    MissingUnder(top, GroupsAfter(so, names, |names|, path, e, a, c), missing, |missing|, path);
  }

  lemma {:induction false} GroupsUnder(top: Path, so: seq<Mismatch>, names: seq<string>, i: nat, path: Path, e: Element, a: Element, c: Context)
    requires i <= |names| && AllUnder(top, so) && top <= path
    ensures AllUnder(top, GroupsAfter(so, names, i, path, e, a, c))
    decreases e, 2, i
  {
    if i > 0 {
      GroupsUnder(top, so, names, i - 1, path, e, a, c);
      GroupUnder(top, GroupsAfter(so, names, i - 1, path, e, a, c), names[i - 1], path, e, a, c);
    }
  }

  lemma {:induction false} GroupUnder(top: Path, so: seq<Mismatch>, name: string, path: Path, e: Element, a: Element, c: Context)
    requires AllUnder(top, so) && top <= path
    ensures AllUnder(top, GroupAfter(so, name, path, e, a, c))
    decreases e, 1, 0
  {
    var p := JoinPath(path, name);
    var expected, actual := Group(e, name), Group(a, name);
    if expected != [] {
      if TypeMatcherDefined(c.matchers, p) {
        AllUnderFirst(top, so, p, expected[0], actual, |actual|, c, e);
      } else {
        PairsUnder(top, so, p, expected, actual, PairsLength(expected, actual), c, e);
      }
    } else {
      PushUnder(top, so, Mismatch(path, UnexpectedChild));
    }
  }

  lemma {:induction false} AllUnderFirst(top: Path, so: seq<Mismatch>, path: Path, first: Element, actual: seq<Element>, i: nat,
                                         c: Context, whole: Element)
    requires i <= |actual| && first < whole && AllUnder(top, so) && top <= path
    ensures AllUnder(top, AllAfter(so, path, first, actual, i, c, whole))
    decreases whole, 0, i
  {
    if i > 0 {
      AllUnderFirst(top, so, path, first, actual, i - 1, c, whole);
      ElementUnder(top, AllAfter(so, path, first, actual, i - 1, c, whole), path, first, actual[i - 1], c);
    }
  }

  lemma {:induction false} PairsUnder(top: Path, so: seq<Mismatch>, path: Path, e: seq<Element>, a: seq<Element>, i: nat,
                                      c: Context, whole: Element)
    requires i <= PairsLength(e, a) && PartsOf(e, whole) && AllUnder(top, so) && top <= path
    ensures AllUnder(top, PairsAfter(so, path, e, a, i, c, whole))
    decreases whole, 0, i
  {
    if i > 0 {
      var next := PairsAfter(so, path, e, a, i - 1, c, whole);
      PairsUnder(top, so, path, e, a, i - 1, c, whole);
      if i <= |e| && i <= |a| {
        ElementUnder(top, next, path, e[i - 1], a[i - 1], c);
      } else if i <= |e| {
        PushUnder(top, next, Mismatch(path, MissingChild));
      } else {
        PushUnder(top, next, Mismatch(path, UnexpectedChild));
      }
    }
  }

  /** For every context, what is pushed for an element lies at or below its path. */
  lemma {:induction false} ElementUnder(top: Path, so: seq<Mismatch>, path: Path, e: Element, a: Element, c: Context)
    requires AllUnder(top, so) && top <= path
    ensures AllUnder(top, ElementAfter(so, path, e, a, c))
    decreases e, 4, 0
  {
    var v := ElementVerdict(path, e, a, c);
    ElementJustified(path, e, a, c);
    if v.Err? {
      CollectUnder(top, so, v, path);
    } else {
      var first := AttributesAfter(so, path, e, a, c);
      AttributesUnder(top, so, path, e, a, c);
      ChildrenUnder(top, first, path, e, a, c);
      TextUnder(top, ChildrenAfter(first, path, e, a, c), path, e, a, c);
    }
  }

  lemma XmlJustified(path: Path, e: Element, a: Element, c: Context)
    ensures Justified(VerdictOf(ElementAfter([], path, e, a, c)), path)
  {
    ElementUnder(path, [], path, e, a, c);
  }
}
