/** The XML comparator, which pushes mismatches onto a list that all its functions share. */
module XmlMatching {
  import opened StringOrder
  import opened Grouping
  import opened Text
  import opened Paths
  import opened Rules
  import opened Contexts
  import opened Xml
  import opened XmlVerdicts

  class MismatchList {
    var items: seq<Mismatch>

    constructor ()
      ensures items == []
    {
      items := [];
    }

    method Push(path: Path, tag: Tag)
      modifies this
      ensures items == old(items) + [Mismatch(path, tag)]
    {
      items := items + [Mismatch(path, tag)];
    }

    method Extend(verdict: Verdict)
      modifies this
      ensures items == Collect(old(items), verdict)
    {
      items := Collect(items, verdict);
    }
  }

  method CompareElement(path: Path, expected: Element, actual: Element, mismatches: MismatchList, context: Context)
    modifies mismatches
    ensures mismatches.items == ElementAfter(old(mismatches.items), path, expected, actual, context)
    decreases expected, 4, 0
  {
    var verdict := ElementVerdict(path, expected, actual, context);
    if verdict.Err? {
      mismatches.Extend(verdict);
    } else {
      CompareAttributes(path, expected, actual, mismatches, context);
      CompareChildren(path, expected, actual, mismatches, context);
      CompareText(path, expected, actual, mismatches, context);
    }
  }

  method CompareAttributes(path: Path, expected: Element, actual: Element, mismatches: MismatchList, context: Context)
    modifies mismatches
    ensures mismatches.items == AttributesAfter(old(mismatches.items), path, expected, actual, context)
  {
    var expectedAttributes, actualAttributes := AttributeMap(expected.attributes), AttributeMap(actual.attributes);
    if |expectedAttributes| == 0 && |actualAttributes| != 0 && context.config == NoUnexpectedKeys {
      mismatches.Push(path, UnexpectedAttributes);
      return;
    }
    ghost var before := mismatches.items;
    if context.config == AllowUnexpectedKeys && |expectedAttributes| > |actualAttributes| {
      mismatches.Push(path, AttributeCount);
    } else if context.config == NoUnexpectedKeys && |expectedAttributes| != |actualAttributes| {
      mismatches.Push(path, AttributeCount);
    }
    assert mismatches.items == CountAfter(before, path, |expectedAttributes|, |actualAttributes|, context);
    CompareAttributeValues(SortedKeys(expectedAttributes.Keys), path, expectedAttributes, actualAttributes, mismatches, context);
  }

  method CompareAttributeValues(keys: seq<string>, path: Path, expected: map<string, string>, actual: map<string, string>,
                                mismatches: MismatchList, context: Context)
    requires forall k <- keys :: k in expected
    modifies mismatches
    ensures mismatches.items == AttributeValuesAfter(old(mismatches.items), keys, |keys|, path, expected, actual, context)
  {
    for i := 0 to |keys|
      invariant mismatches.items == AttributeValuesAfter(old(mismatches.items), keys, i, path, expected, actual, context)
    {
      var key := keys[i];
      assert key in keys;
      var p := JoinPath(path, "@" + key);
      if key in actual {
        mismatches.Extend(TextVerdict(p, expected[key], actual[key], context));
      } else {
        mismatches.Push(p, MissingAttribute);
      }
    }
  }

  /** Groups the children of both by name, and takes the expected groups that are met out of their map;
    * what is left there is missing. */
  method CompareChildren(path: Path, expected: Element, actual: Element, mismatches: MismatchList, context: Context)
    modifies mismatches
    ensures mismatches.items == ChildrenAfter(old(mismatches.items), path, expected, actual, context)
    decreases expected, 3, 0
  {
    var expectedChildren, actualChildren := Elements(expected.children), Elements(actual.children);
    if expectedChildren == [] && actualChildren != [] && context.config == NoUnexpectedKeys {
      mismatches.Push(path, UnexpectedChild);
      return;
    }
    var expectedByName := GroupBy(expectedChildren, ElementName);
    var actualByName := GroupBy(actualChildren, ElementName);
    assert expectedByName.Keys == ChildNames(expected) && actualByName.Keys == ChildNames(actual);
    var left := CompareGroups(SortedKeys(actualByName.Keys), expectedByName, path, expected, actual, mismatches, context);
    assert left.Keys == ChildNames(expected) - ChildNames(actual);
    PushMissing(SortedKeys(left.Keys), path, mismatches);
  }

  method CompareGroups(names: seq<string>, expectedByName: map<string, seq<Element>>, path: Path, expected: Element, actual: Element,
                       mismatches: MismatchList, context: Context)
    returns (left: map<string, seq<Element>>)
    requires Distinct(names)
    modifies mismatches
    ensures mismatches.items == GroupsAfter(old(mismatches.items), names, |names|, path, expected, actual, context)
    ensures left.Keys == set name | name in expectedByName && name !in names
    decreases expected, 2, |names|
  {
    left := expectedByName;
    for i := 0 to |names|
      invariant mismatches.items == GroupsAfter(old(mismatches.items), names, i, path, expected, actual, context)
      invariant left.Keys == expectedByName.Keys - FirstKeys(names, i)
    {
      FirstKeysStep(names, i);
      CompareGroup(names[i], path, expected, actual, mismatches, context);
      left := left - {names[i]};
    }
    assert forall name :: name in FirstKeys(names, |names|) <==> name in names;
  }

  method PushMissing(names: seq<string>, path: Path, mismatches: MismatchList)
    modifies mismatches
    ensures mismatches.items == MissingAfter(old(mismatches.items), names, |names|, path)
  {
    for i := 0 to |names|
      invariant mismatches.items == MissingAfter(old(mismatches.items), names, i, path)
    {
      mismatches.Push(path, MissingChild);
    }
  }

  method CompareGroup(name: string, path: Path, expected: Element, actual: Element, mismatches: MismatchList, context: Context)
    modifies mismatches
    ensures mismatches.items == GroupAfter(old(mismatches.items), name, path, expected, actual, context)
    decreases expected, 1, 0
  {
    var p := JoinPath(path, name);
    var expectedGroup, actualGroup := Group(expected, name), Group(actual, name);
    if expectedGroup != [] {
      if TypeMatcherDefined(context.matchers, p) {
        CompareAll(p, expectedGroup[0], actualGroup, mismatches, context, expected);
      } else {
        ComparePairs(p, expectedGroup, actualGroup, mismatches, context, expected);
      }
    } else if context.config == NoUnexpectedKeys || TypeMatcherDefined(context.matchers, p) {
      mismatches.Push(path, UnexpectedChild);
    }
  }

  method CompareAll(path: Path, first: Element, actual: seq<Element>, mismatches: MismatchList, context: Context, ghost whole: Element)
    requires first < whole
    modifies mismatches
    ensures mismatches.items == AllAfter(old(mismatches.items), path, first, actual, |actual|, context, whole)
    decreases whole, 0, |actual|
  {
    for i := 0 to |actual|
      invariant mismatches.items == AllAfter(old(mismatches.items), path, first, actual, i, context, whole)
    {
      CompareElement(path, first, actual[i], mismatches, context);
    }
  }

  method ComparePairs(path: Path, expected: seq<Element>, actual: seq<Element>, mismatches: MismatchList, context: Context,
                      ghost whole: Element)
    requires PartsOf(expected, whole)
    modifies mismatches
    ensures mismatches.items ==
      PairsAfter(old(mismatches.items), path, expected, actual, PairsLength(expected, actual), context, whole)
    decreases whole, 0, PairsLength(expected, actual)
  {
    for i := 0 to PairsLength(expected, actual)
      invariant mismatches.items == PairsAfter(old(mismatches.items), path, expected, actual, i, context, whole)
    {
      if i < |expected| && i < |actual| {
        CompareElement(path, expected[i], actual[i], mismatches, context);
      } else if i < |expected| {
        mismatches.Push(path, MissingChild);
      } else if context.config == NoUnexpectedKeys {
        mismatches.Push(path, UnexpectedChild);
      }
    }
  }

  method CompareText(path: Path, expected: Element, actual: Element, mismatches: MismatchList, context: Context)
    modifies mismatches
    ensures mismatches.items == TextAfter(old(mismatches.items), path, expected, actual, context)
  {
    var p := JoinPath(path, "#text");
    var expectedText, actualText := TextOf(expected.children), TextOf(actual.children);
    if context.MatcherIsDefined(p) {
      expectedText := Trim(expectedText);
    }
    mismatches.Extend(TextVerdict(p, expectedText, Trim(actualText), context));
  }

  /** Compares two root elements; the list says whether they match. */
  method MatchXml(expected: Element, actual: Element, context: Context) returns (verdict: Verdict)
    ensures verdict == VerdictOf(ElementAfter([], JoinPath([Root], ElementName(expected)), expected, actual, context))
  {
    var mismatches := new MismatchList();
    CompareElement(JoinPath([Root], ElementName(expected)), expected, actual, mismatches, context);
    verdict := VerdictOf(mismatches.items);
  }
}
