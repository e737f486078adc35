/** What the XML comparator pushes for every context: the mismatches found so far are passed along. */
module XmlVerdicts {
  import opened StringOrder
  import opened Text
  import opened Paths
  import opened Rules
  import opened Contexts
  import opened RuleMatching
  import opened Xml

  // A rule on two elements (`Matches for &Element`).
  predicate ElementMatches(rule: MatchingRule, e: Element, a: Element, cascaded: bool, foreign: Foreign) {
    match rule
    case Regex(_) => foreign.acceptsString(a.name.local, rule)
    case Type => e.name == a.name
    case Equality => e.name == a.name
    case NotEmpty => a.children != []
    case _ => IsTypeMatcher(rule) && LengthPasses(rule, |a.children|, cascaded)
  }

  function ElementResults(list: RuleList, e: Element, a: Element, foreign: Foreign): seq<bool> {
    seq(|list.rules|, i requires 0 <= i < |list.rules| => ElementMatches(list.rules[i], e, a, list.cascaded, foreign))
  }

  function ElementVerdict(path: Path, e: Element, a: Element, c: Context): Verdict {
    if c.MatcherIsDefined(path) then
      var list := c.SelectBestMatcher(path);
      Combined(path, list.logic, ElementResults(list, e, a, c.foreign))
    else if e.name == a.name then Ok
    else Fail(path, ValueMismatch)
  }

  // `compare_element`
  function ElementAfter(so: seq<Mismatch>, path: Path, e: Element, a: Element, c: Context): seq<Mismatch>
    decreases e, 4, 0
  {
    var v := ElementVerdict(path, e, a, c);
    if v.Err? then so + v.mismatches
    else TextAfter(ChildrenAfter(AttributesAfter(so, path, e, a, c), path, e, a, c), path, e, a, c)
  }

  // ---- Attributes

  // `compare_value`
  function TextVerdict(path: Path, e: string, a: string, c: Context): Verdict {
    if c.MatcherIsDefined(path) then MatchStrings(path, c.SelectBestMatcher(path), e, a, c.foreign)
    else if e == a then Ok
    else Fail(path, ValueMismatch)
  }

  // `compare_attributes`
  function AttributesAfter(so: seq<Mismatch>, path: Path, e: Element, a: Element, c: Context): seq<Mismatch> {
    var expected, actual := AttributeMap(e.attributes), AttributeMap(a.attributes);
    if |expected| == 0 && |actual| != 0 && c.config == NoUnexpectedKeys then so + [Mismatch(path, UnexpectedAttributes)]
    else
      var keys := SortedKeys(expected.Keys);
      AttributeValuesAfter(CountAfter(so, path, |expected|, |actual|, c), keys, |keys|, path, expected, actual, c)
  }

  function CountAfter(so: seq<Mismatch>, path: Path, expected: nat, actual: nat, c: Context): seq<Mismatch> {
    if c.config == AllowUnexpectedKeys && expected > actual then so + [Mismatch(path, AttributeCount)]
    else if c.config == NoUnexpectedKeys && expected != actual then so + [Mismatch(path, AttributeCount)]
    else so
  }

  // The first `i` expected attributes.
  function AttributeValuesAfter(so: seq<Mismatch>, keys: seq<string>, i: nat, path: Path,
                                expected: map<string, string>, actual: map<string, string>, c: Context): seq<Mismatch>
    requires i <= |keys| && forall k <- keys :: k in expected
  {
    if i == 0 then so else
      var next := AttributeValuesAfter(so, keys, i - 1, path, expected, actual, c);
      var key := keys[i - 1];
      var p := JoinPath(path, "@" + key);
      if key in actual then Collect(next, TextVerdict(p, expected[key], actual[key], c))
      else next + [Mismatch(p, MissingAttribute)]
  }

  // ---- Children

  // `compare_children`
  function ChildrenAfter(so: seq<Mismatch>, path: Path, e: Element, a: Element, c: Context): seq<Mismatch>
    decreases e, 3, 0
  {
    if Elements(e.children) == [] && Elements(a.children) != [] && c.config == NoUnexpectedKeys then
      so + [Mismatch(path, UnexpectedChild)]
    else
      var names, missing := SortedKeys(ChildNames(a)), SortedKeys(ChildNames(e) - ChildNames(a));
      MissingAfter(GroupsAfter(so, names, |names|, path, e, a, c), missing, |missing|, path)
  }

  function MissingAfter(so: seq<Mismatch>, names: seq<string>, i: nat, path: Path): seq<Mismatch>
    requires i <= |names|
  {
    if i == 0 then so else MissingAfter(so, names, i - 1, path) + [Mismatch(path, MissingChild)]
  }

  // The groups of the first `i` actual names.
  function GroupsAfter(so: seq<Mismatch>, names: seq<string>, i: nat, path: Path, e: Element, a: Element, c: Context): seq<Mismatch>
    requires i <= |names|
    decreases e, 2, i
  {
    if i == 0 then so else
      GroupAfter(GroupsAfter(so, names, i - 1, path, e, a, c), names[i - 1], path, e, a, c)
  }

  function GroupAfter(so: seq<Mismatch>, name: string, path: Path, e: Element, a: Element, c: Context): seq<Mismatch>
    decreases e, 1, 0
  {
    var p := JoinPath(path, name);
    var expected, actual := Group(e, name), Group(a, name);
    if expected != [] then
      if TypeMatcherDefined(c.matchers, p) then AllAfter(so, p, expected[0], actual, |actual|, c, e)
      else PairsAfter(so, p, expected, actual, PairsLength(expected, actual), c, e)
    else if c.config == NoUnexpectedKeys || TypeMatcherDefined(c.matchers, p) then so + [Mismatch(path, UnexpectedChild)]
    else so
  }

  // Under a type rule, the first `i` actual children are compared with the first expected one.
  function AllAfter(so: seq<Mismatch>, path: Path, first: Element, actual: seq<Element>, i: nat, c: Context, ghost whole: Element): seq<Mismatch>
    requires i <= |actual| && first < whole
    decreases whole, 0, i
  {
    if i == 0 then so else
      ElementAfter(AllAfter(so, path, first, actual, i - 1, c, whole), path, first, actual[i - 1], c)
  }

  function PairsLength(expected: seq<Element>, actual: seq<Element>): nat {
    if |expected| < |actual| then |actual| else |expected|
  }

  // Otherwise the first `i` of both are compared in pairs, as far as they go.
  function PairsAfter(so: seq<Mismatch>, path: Path, expected: seq<Element>, actual: seq<Element>, i: nat, c: Context,
                      ghost whole: Element): seq<Mismatch>
    requires i <= PairsLength(expected, actual) && PartsOf(expected, whole)
    decreases whole, 0, i
  {
    if i == 0 then so else
      PairAfter(PairsAfter(so, path, expected, actual, i - 1, c, whole), path, expected, actual, i - 1, c, whole)
  }

  function PairAfter(so: seq<Mismatch>, path: Path, expected: seq<Element>, actual: seq<Element>, i: nat, c: Context,
                     ghost whole: Element): seq<Mismatch>
    requires i < PairsLength(expected, actual) && PartsOf(expected, whole)
    decreases whole, 0, 0
  {
    if i < |expected| && i < |actual| then ElementAfter(so, path, expected[i], actual[i], c)
    else if i < |expected| then so + [Mismatch(path, MissingChild)]
    else if c.config == NoUnexpectedKeys then so + [Mismatch(path, UnexpectedChild)]
    else so
  }

  // ---- Text

  // `compare_text`
  function TextAfter(so: seq<Mismatch>, path: Path, e: Element, a: Element, c: Context): seq<Mismatch> {
    var p := JoinPath(path, "#text");
    var expected, actual := TextOf(e.children), TextOf(a.children);
    Collect(so, TextVerdict(p, if c.MatcherIsDefined(p) then Trim(expected) else expected, Trim(actual), c))
  }
}
