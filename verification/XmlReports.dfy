/** What the XML comparator reports for every context, and the paths it looks the rules up at. */
module XmlReports {
  import opened StringOrder
  import opened Paths
  import opened Rules
  import opened Contexts
  import opened RuleMatching
  import opened TypeRules
  import opened Reports
  import opened Xml
  import Text
  import opened XmlVerdicts
  import opened XmlLaws

  // ---- Attributes and text

  function AttributePath(path: Path, key: string): Path {
    path + [Field("@" + key)]
  }

  function TextPath(path: Path): Path {
    path + [Field("#text")]
  }

  lemma NoIndex(s: string)
    requires s != "" && s[0] != '+' && !('0' <= s[0] <= '9')
    ensures ParseUsize(s).None?
  {
    NoDigits(s, |s|);
  }

  lemma {:induction false} NoDigits(s: string, i: nat)
    requires 0 < i <= |s| && !('0' <= s[0] <= '9')
    ensures ParseDigits(s, i).None?
  {
    if i > 1 {
      NoDigits(s, i - 1);
    }
  }

  // The names with a sign in front are fields.
  lemma SignedFields(path: Path, key: string)
    ensures JoinPath(path, "@" + key) == AttributePath(path, key)
    ensures JoinPath(path, "#text") == TextPath(path)
  {
    NoIndex("@" + key);
    NoIndex("#text");
    assert ("@" + key)[0] == '@' && "#text"[0] == '#';
  }

  // The strings pass the list selected at the path, or are equal where nothing is defined there.
  predicate TextPasses(p: Path, e: string, a: string, c: Context) {
    if c.MatcherIsDefined(p) then StringsPass(c.SelectBestMatcher(p), e, a, c.foreign) else e == a
  }

  lemma TextVerdictExactly(p: Path, e: string, a: string, c: Context, m: Mismatch)
    ensures TextVerdict(p, e, a, c).Ok? <==> TextPasses(p, e, a, c)
    ensures TextVerdict(p, e, a, c).Err? ==> |TextVerdict(p, e, a, c).mismatches| > 0
    ensures Lists(TextVerdict(p, e, a, c), m) <==> !TextPasses(p, e, a, c) && m == Mismatch(p, FailureTag(p, c))
  {
    var list := c.SelectBestMatcher(p);
    MatchStringsExactly(p, list, e, a, c.foreign);
    CombinedExactly(p, list.logic, StringResults(list, e, a, c.foreign));
    CombinedLists(p, list.logic, StringResults(list, e, a, c.foreign), m);
  }

  predicate AttributePasses(key: string, path: Path, e: map<string, string>, a: map<string, string>, c: Context)
    requires key in e
  {
    key in a && TextPasses(AttributePath(path, key), e[key], a[key], c)
  }

  predicate AllAttributesPass(path: Path, e: map<string, string>, a: map<string, string>, c: Context) {
    && CountFits(c.config, |e|, |a|)
    && forall key | key in e :: AttributePasses(key, path, e, a, c)
  }

  predicate FirstAttributesPass(keys: seq<string>, i: nat, path: Path, e: map<string, string>, a: map<string, string>, c: Context)
    requires i <= |keys| && forall k <- keys :: k in e
  {
    forall j | 0 <= j < i :: keys[j] in keys && AttributePasses(keys[j], path, e, a, c)
  }

  lemma OneAttribute(so: seq<Mismatch>, key: string, path: Path, e: string, a: string, c: Context)
    ensures Adds(so, Collect(so, TextVerdict(JoinPath(path, "@" + key), e, a, c)), TextPasses(AttributePath(path, key), e, a, c))
  {
    SignedFields(path, key);
    TextVerdictExactly(AttributePath(path, key), e, a, c, Mismatch(path, ValueMismatch));
  }

  lemma AttributeAccepted(so: seq<Mismatch>, keys: seq<string>, i: nat, path: Path, e: map<string, string>, a: map<string, string>, c: Context)
    requires i < |keys| && forall k <- keys :: k in e
    ensures keys[i] in keys
    ensures Adds(AttributeValuesAfter(so, keys, i, path, e, a, c), AttributeValuesAfter(so, keys, i + 1, path, e, a, c),
      AttributePasses(keys[i], path, e, a, c))
  {
    var key := keys[i];
    assert key in keys;
    if key in a {
      OneAttribute(AttributeValuesAfter(so, keys, i, path, e, a, c), key, path, e[key], a[key], c);
    }
  }

  lemma NextAttribute(keys: seq<string>, i: nat, path: Path, e: map<string, string>, a: map<string, string>, c: Context)
    requires i < |keys| && forall k <- keys :: k in e
    ensures keys[i] in keys
    ensures FirstAttributesPass(keys, i + 1, path, e, a, c) <==>
      FirstAttributesPass(keys, i, path, e, a, c) && AttributePasses(keys[i], path, e, a, c)
  {
  }

  lemma {:induction false} AttributeValuesAccepted(so: seq<Mismatch>, keys: seq<string>, i: nat, path: Path,
                                                   e: map<string, string>, a: map<string, string>, c: Context)
    requires i <= |keys| && forall k <- keys :: k in e
    ensures Adds(so, AttributeValuesAfter(so, keys, i, path, e, a, c), FirstAttributesPass(keys, i, path, e, a, c))
  {
    if i > 0 {
      AttributeValuesAccepted(so, keys, i - 1, path, e, a, c);
      AttributeAccepted(so, keys, i - 1, path, e, a, c);
      NextAttribute(keys, i - 1, path, e, a, c);
      AddsBoth(so, AttributeValuesAfter(so, keys, i - 1, path, e, a, c), AttributeValuesAfter(so, keys, i, path, e, a, c),
        FirstAttributesPass(keys, i - 1, path, e, a, c), AttributePasses(keys[i - 1], path, e, a, c));
    }
  }

  lemma AllOfTheFirst(keys: seq<string>, path: Path, e: map<string, string>, a: map<string, string>, c: Context)
    requires forall k :: k in keys <==> k in e.Keys
    ensures FirstAttributesPass(keys, |keys|, path, e, a, c) <==> forall key | key in e :: AttributePasses(key, path, e, a, c)
  {
    if FirstAttributesPass(keys, |keys|, path, e, a, c) {
      forall key | key in e ensures AttributePasses(key, path, e, a, c) {
        assert key in keys;
      }
    }
  }

  /** For every context the attributes add nothing exactly when there are as many as the configuration wants, and each
    * expected one is there and passes the rules for its own path: the element's, and its name behind an `@`. */
  lemma AttributesAccepted(so: seq<Mismatch>, path: Path, e: Element, a: Element, c: Context)
    ensures Adds(so, AttributesAfter(so, path, e, a, c), AllAttributesPass(path, AttributeMap(e.attributes), AttributeMap(a.attributes), c))
  {
    var expected, actual := AttributeMap(e.attributes), AttributeMap(a.attributes);
    var keys := SortedKeys(expected.Keys);
    var counted := CountAfter(so, path, |expected|, |actual|, c);
    AttributeValuesAccepted(counted, keys, |keys|, path, expected, actual, c);
    AllOfTheFirst(keys, path, expected, actual, c);
    CountExactly(so, path, expected, actual, c);
    AddsBoth(so, counted, AttributeValuesAfter(counted, keys, |keys|, path, expected, actual, c),
      CountFits(c.config, |expected|, |actual|), FirstAttributesPass(keys, |keys|, path, expected, actual, c));
  }

  // The texts are compared trimmed in any case.
  lemma TextIs(so: seq<Mismatch>, path: Path, e: Element, a: Element, c: Context)
    ensures TextAfter(so, path, e, a, c) == Collect(so, TextVerdict(TextPath(path), TextOf(e.children), TextOf(a.children), c))
  {
    SignedFields(path, "");
    TextIsTrimmed(e.children);
    TextIsTrimmed(a.children);
    Text.TrimExactly(TextOf(e.children));
    Text.TrimExactly(TextOf(a.children));
  }

  /** For every context the text adds nothing exactly when it passes the rules for the element's path and `#text`. */
  lemma TextAccepted(so: seq<Mismatch>, path: Path, e: Element, a: Element, c: Context)
    ensures Adds(so, TextAfter(so, path, e, a, c), TextPasses(TextPath(path), TextOf(e.children), TextOf(a.children), c))
  {
    TextIs(so, path, e, a, c);
    TextVerdictExactly(TextPath(path), TextOf(e.children), TextOf(a.children), c, Mismatch(path, ValueMismatch));
  }

  // ---- What is reported

  // The list has a mismatch that it did not have before, or it had it already.
  predicate Told(so: seq<Mismatch>, after: seq<Mismatch>, m: Mismatch, reported: bool) {
    m in after <==> m in so || reported
  }

  lemma ToldBoth(so: seq<Mismatch>, next: seq<Mismatch>, after: seq<Mismatch>, m: Mismatch, p: bool, q: bool)
    requires Told(so, next, m, p) && Told(next, after, m, q)
    ensures Told(so, after, m, p || q)
  {
  }

  predicate AttributeReported(m: Mismatch, key: string, path: Path, e: map<string, string>, a: map<string, string>, c: Context)
    requires key in e
  {
    var p := AttributePath(path, key);
    !AttributePasses(key, path, e, a, c) && m == Mismatch(p, if key in a then FailureTag(p, c) else MissingAttribute)
  }

  predicate AttributesReported(m: Mismatch, path: Path, e: map<string, string>, a: map<string, string>, c: Context) {
    if e == map[] && a != map[] && c.config == NoUnexpectedKeys then m == Mismatch(path, UnexpectedAttributes)
    else
      || (!CountFits(c.config, |e|, |a|) && m == Mismatch(path, AttributeCount))
      || exists key | key in e :: AttributeReported(m, key, path, e, a, c)
  }

  // The element passes the list selected at its path, or has the expected name where nothing is defined there.
  predicate NamePasses(path: Path, e: Element, a: Element, c: Context) {
    if !c.MatcherIsDefined(path) then e.name == a.name
    else
      var list := c.SelectBestMatcher(path);
      && list.rules != []
      && (list.logic == And ==> forall rule <- list.rules :: ElementMatches(rule, e, a, list.cascaded, c.foreign))
      && (list.logic == Or ==> exists rule <- list.rules :: ElementMatches(rule, e, a, list.cascaded, c.foreign))
  }

  // A name that fails is all that is reported of an element; else its attributes, children and text are compared.
  ghost predicate ElementReported(m: Mismatch, path: Path, e: Element, a: Element, c: Context)
    decreases e, 3
  {
    if !NamePasses(path, e, a, c) then m == Mismatch(path, FailureTag(path, c))
    else
      || AttributesReported(m, path, AttributeMap(e.attributes), AttributeMap(a.attributes), c)
      || ChildrenReported(m, path, e, a, c)
      || TextReported(m, path, e, a, c)
  }

  predicate TextReported(m: Mismatch, path: Path, e: Element, a: Element, c: Context) {
    !TextPasses(TextPath(path), TextOf(e.children), TextOf(a.children), c) && m == Mismatch(TextPath(path), FailureTag(TextPath(path), c))
  }

  ghost predicate ChildrenReported(m: Mismatch, path: Path, e: Element, a: Element, c: Context)
    decreases e, 2
  {
    if ChildNames(e) == {} && ChildNames(a) != {} && c.config == NoUnexpectedKeys then m == Mismatch(path, UnexpectedChild)
    else
      || (!(ChildNames(e) <= ChildNames(a)) && m == Mismatch(path, MissingChild))
      || exists name | name in ChildNames(a) :: GroupReported(m, name, path, e, a, c)
  }

  // The children of a name lie at the element's path and the name.
  ghost predicate GroupReported(m: Mismatch, name: string, path: Path, e: Element, a: Element, c: Context)
    decreases e, 1
  {
    var p := path + [TokenOf(name)];
    var expected, actual := Group(e, name), Group(a, name);
    if expected == [] then
      (c.config == NoUnexpectedKeys || TypeMatcherDefined(c.matchers, p)) && m == Mismatch(path, UnexpectedChild)
    else if TypeMatcherDefined(c.matchers, p) then
      exists j | 0 <= j < |actual| :: ElementReported(m, p, expected[0], actual[j], c)
    else
      exists j | 0 <= j < PairsLength(expected, actual) :: PairReported(m, p, expected, actual, j, c, e)
  }

  ghost predicate PairReported(m: Mismatch, path: Path, e: seq<Element>, a: seq<Element>, j: nat, c: Context, whole: Element)
    requires PartsOf(e, whole)
    decreases whole, 0
  {
    if j >= |e| then c.config == NoUnexpectedKeys && m == Mismatch(path, UnexpectedChild)
    else if j >= |a| then m == Mismatch(path, MissingChild)
    else ElementReported(m, path, e[j], a[j], c)
  }

  lemma NameReported(path: Path, e: Element, a: Element, c: Context, m: Mismatch)
    ensures ElementVerdict(path, e, a, c).Ok? <==> NamePasses(path, e, a, c)
    ensures Lists(ElementVerdict(path, e, a, c), m) <==> !NamePasses(path, e, a, c) && m == Mismatch(path, FailureTag(path, c))
  {
    var list := c.SelectBestMatcher(path);
    var results := ElementResults(list, e, a, c.foreign);
    CombinedExactly(path, list.logic, results);
    CombinedLists(path, list.logic, results, m);
    forall rule | rule in list.rules ensures ElementMatches(rule, e, a, list.cascaded, c.foreign) in results {
      var i :| 0 <= i < |list.rules| && list.rules[i] == rule;
      assert results[i] == ElementMatches(rule, e, a, list.cascaded, c.foreign);
    }
  }

  predicate FirstAttributesReported(m: Mismatch, keys: seq<string>, i: nat, path: Path, e: map<string, string>, a: map<string, string>, c: Context)
    requires i <= |keys| && forall k <- keys :: k in e
  {
    exists j | 0 <= j < i :: keys[j] in keys && AttributeReported(m, keys[j], path, e, a, c)
  }

  lemma OneAttributeTold(so: seq<Mismatch>, key: string, path: Path, e: string, a: string, c: Context, m: Mismatch)
    ensures Told(so, Collect(so, TextVerdict(JoinPath(path, "@" + key), e, a, c)), m,
      !TextPasses(AttributePath(path, key), e, a, c) && m == Mismatch(AttributePath(path, key), FailureTag(AttributePath(path, key), c)))
  {
    SignedFields(path, key);
    TextVerdictExactly(AttributePath(path, key), e, a, c, m);
  }

  lemma AttributeTold(so: seq<Mismatch>, keys: seq<string>, i: nat, path: Path, e: map<string, string>, a: map<string, string>, c: Context, m: Mismatch)
    requires i < |keys| && forall k <- keys :: k in e
    ensures keys[i] in keys
    ensures Told(AttributeValuesAfter(so, keys, i, path, e, a, c), AttributeValuesAfter(so, keys, i + 1, path, e, a, c), m,
      AttributeReported(m, keys[i], path, e, a, c))
  {
    var key := keys[i];
    assert key in keys;
    SignedFields(path, key);
    if key in a {
      OneAttributeTold(AttributeValuesAfter(so, keys, i, path, e, a, c), key, path, e[key], a[key], c, m);
    }
  }

  lemma NextAttributeTold(so: seq<Mismatch>, next: seq<Mismatch>, after: seq<Mismatch>, m: Mismatch, keys: seq<string>, i: nat,
                          path: Path, e: map<string, string>, a: map<string, string>, c: Context)
    requires i < |keys| && (forall k <- keys :: k in e) && keys[i] in keys
    requires Told(so, next, m, FirstAttributesReported(m, keys, i, path, e, a, c))
    requires Told(next, after, m, AttributeReported(m, keys[i], path, e, a, c))
    ensures Told(so, after, m, FirstAttributesReported(m, keys, i + 1, path, e, a, c))
  {
  }

  lemma {:induction false} AttributeValuesTold(so: seq<Mismatch>, keys: seq<string>, i: nat, path: Path,
                                               e: map<string, string>, a: map<string, string>, c: Context, m: Mismatch)
    requires i <= |keys| && forall k <- keys :: k in e
    ensures Told(so, AttributeValuesAfter(so, keys, i, path, e, a, c), m, FirstAttributesReported(m, keys, i, path, e, a, c))
  {
    if i > 0 {
      AttributeValuesTold(so, keys, i - 1, path, e, a, c, m);
      AttributeTold(so, keys, i - 1, path, e, a, c, m);
      NextAttributeTold(so, AttributeValuesAfter(so, keys, i - 1, path, e, a, c), AttributeValuesAfter(so, keys, i, path, e, a, c), m,
        keys, i - 1, path, e, a, c);
    }
  }

  lemma AnyOfTheFirst(m: Mismatch, keys: seq<string>, path: Path, e: map<string, string>, a: map<string, string>, c: Context)
    requires forall k :: k in keys <==> k in e.Keys
    ensures FirstAttributesReported(m, keys, |keys|, path, e, a, c) <==> exists key | key in e :: AttributeReported(m, key, path, e, a, c)
  {
    if key :| key in e && AttributeReported(m, key, path, e, a, c) {
      assert key in keys;
    }
  }

  lemma AttributesTold(so: seq<Mismatch>, path: Path, e: Element, a: Element, c: Context, m: Mismatch)
    ensures Told(so, AttributesAfter(so, path, e, a, c), m, AttributesReported(m, path, AttributeMap(e.attributes), AttributeMap(a.attributes), c))
  {
    var expected, actual := AttributeMap(e.attributes), AttributeMap(a.attributes);
    if !(expected == map[] && actual != map[] && c.config == NoUnexpectedKeys) {
      var keys := SortedKeys(expected.Keys);
      var counted := CountAfter(so, path, |expected|, |actual|, c);
      AttributeValuesTold(counted, keys, |keys|, path, expected, actual, c, m);
      AnyOfTheFirst(m, keys, path, expected, actual, c);
      ToldBoth(so, counted, AttributeValuesAfter(counted, keys, |keys|, path, expected, actual, c), m,
        !CountFits(c.config, |expected|, |actual|) && m == Mismatch(path, AttributeCount),
        FirstAttributesReported(m, keys, |keys|, path, expected, actual, c));
    }
  }

  lemma TextTold(so: seq<Mismatch>, path: Path, e: Element, a: Element, c: Context, m: Mismatch)
    ensures Told(so, TextAfter(so, path, e, a, c), m, TextReported(m, path, e, a, c))
  {
    TextIs(so, path, e, a, c);
    TextVerdictExactly(TextPath(path), TextOf(e.children), TextOf(a.children), c, m);
  }

  lemma {:induction false} MissingTold(so: seq<Mismatch>, names: seq<string>, i: nat, path: Path, m: Mismatch)
    requires i <= |names|
    ensures Told(so, MissingAfter(so, names, i, path), m, i > 0 && m == Mismatch(path, MissingChild))
  {
    if i > 0 {
      MissingTold(so, names, i - 1, path, m);
    }
  }

  ghost predicate FirstPairsReported(m: Mismatch, path: Path, e: seq<Element>, a: seq<Element>, i: nat, c: Context, whole: Element)
    requires PartsOf(e, whole)
  {
    exists j | 0 <= j < i :: PairReported(m, path, e, a, j, c, whole)
  }

  lemma NextPairTold(so: seq<Mismatch>, next: seq<Mismatch>, after: seq<Mismatch>, m: Mismatch, path: Path, e: seq<Element>,
                     a: seq<Element>, i: nat, c: Context, whole: Element)
    requires PartsOf(e, whole) && Told(so, next, m, FirstPairsReported(m, path, e, a, i, c, whole))
    requires Told(next, after, m, PairReported(m, path, e, a, i, c, whole))
    ensures Told(so, after, m, FirstPairsReported(m, path, e, a, i + 1, c, whole))
  {
  }

  lemma {:induction false} PairTold(so: seq<Mismatch>, path: Path, e: seq<Element>, a: seq<Element>, i: nat, c: Context, whole: Element, m: Mismatch)
    requires i < PairsLength(e, a) && PartsOf(e, whole)
    ensures Told(so, PairAfter(so, path, e, a, i, c, whole), m, PairReported(m, path, e, a, i, c, whole))
    decreases whole, 0, 0
  {
    if i < |e| && i < |a| {
      ElementTold(so, path, e[i], a[i], c, m);
    }
  }

  lemma {:induction false} PairsTold(so: seq<Mismatch>, path: Path, e: seq<Element>, a: seq<Element>, i: nat, c: Context, whole: Element, m: Mismatch)
    requires i <= PairsLength(e, a) && PartsOf(e, whole)
    ensures Told(so, PairsAfter(so, path, e, a, i, c, whole), m, FirstPairsReported(m, path, e, a, i, c, whole))
    decreases whole, 0, i
  {
    if i > 0 {
      var next := PairsAfter(so, path, e, a, i - 1, c, whole);
      PairsTold(so, path, e, a, i - 1, c, whole, m);
      PairTold(next, path, e, a, i - 1, c, whole, m);
      NextPairTold(so, next, PairsAfter(so, path, e, a, i, c, whole), m, path, e, a, i - 1, c, whole);
    }
  }

  ghost predicate FirstReported(m: Mismatch, path: Path, first: Element, actual: seq<Element>, i: nat, c: Context)
    requires i <= |actual|
  {
    exists j | 0 <= j < i :: ElementReported(m, path, first, actual[j], c)
  }

  lemma NextTold(so: seq<Mismatch>, next: seq<Mismatch>, after: seq<Mismatch>, m: Mismatch, path: Path, first: Element,
                 actual: seq<Element>, i: nat, c: Context)
    requires i < |actual| && Told(so, next, m, FirstReported(m, path, first, actual, i, c))
    requires Told(next, after, m, ElementReported(m, path, first, actual[i], c))
    ensures Told(so, after, m, FirstReported(m, path, first, actual, i + 1, c))
  {
  }

  lemma {:induction false} AllTold(so: seq<Mismatch>, path: Path, first: Element, actual: seq<Element>, i: nat, c: Context, whole: Element, m: Mismatch)
    requires i <= |actual| && first < whole
    ensures Told(so, AllAfter(so, path, first, actual, i, c, whole), m, FirstReported(m, path, first, actual, i, c))
    decreases whole, 0, i
  {
    if i > 0 {
      var next := AllAfter(so, path, first, actual, i - 1, c, whole);
      AllTold(so, path, first, actual, i - 1, c, whole, m);
      ElementTold(next, path, first, actual[i - 1], c, m);
      NextTold(so, next, AllAfter(so, path, first, actual, i, c, whole), m, path, first, actual, i - 1, c);
    }
  }

  lemma {:induction false} GroupTold(so: seq<Mismatch>, name: string, path: Path, e: Element, a: Element, c: Context, m: Mismatch)
    ensures Told(so, GroupAfter(so, name, path, e, a, c), m, GroupReported(m, name, path, e, a, c))
    decreases e, 1, 0
  {
    var p := path + [TokenOf(name)];
    var expected, actual := Group(e, name), Group(a, name);
    if expected != [] {
      if TypeMatcherDefined(c.matchers, p) {
        AllTold(so, p, expected[0], actual, |actual|, c, e, m);
      } else {
        PairsTold(so, p, expected, actual, PairsLength(expected, actual), c, e, m);
      }
    }
  }

  ghost predicate FirstGroupsReported(m: Mismatch, names: seq<string>, i: nat, path: Path, e: Element, a: Element, c: Context)
    requires i <= |names|
  {
    exists j | 0 <= j < i :: GroupReported(m, names[j], path, e, a, c)
  }

  lemma NextGroupTold(so: seq<Mismatch>, next: seq<Mismatch>, after: seq<Mismatch>, m: Mismatch, names: seq<string>, i: nat,
                      path: Path, e: Element, a: Element, c: Context)
    requires i < |names| && Told(so, next, m, FirstGroupsReported(m, names, i, path, e, a, c))
    requires Told(next, after, m, GroupReported(m, names[i], path, e, a, c))
    ensures Told(so, after, m, FirstGroupsReported(m, names, i + 1, path, e, a, c))
  {
  }

  lemma {:induction false} GroupsTold(so: seq<Mismatch>, names: seq<string>, i: nat, path: Path, e: Element, a: Element, c: Context, m: Mismatch)
    requires i <= |names|
    ensures Told(so, GroupsAfter(so, names, i, path, e, a, c), m, FirstGroupsReported(m, names, i, path, e, a, c))
    decreases e, 2, i
  {
    if i > 0 {
      var next := GroupsAfter(so, names, i - 1, path, e, a, c);
      GroupsTold(so, names, i - 1, path, e, a, c, m);
      GroupTold(next, names[i - 1], path, e, a, c, m);
      NextGroupTold(so, next, GroupsAfter(so, names, i, path, e, a, c), m, names, i - 1, path, e, a, c);
    }
  }

  lemma AnyGroup(m: Mismatch, names: seq<string>, path: Path, e: Element, a: Element, c: Context)
    requires forall name :: name in names <==> name in ChildNames(a)
    ensures FirstGroupsReported(m, names, |names|, path, e, a, c) <==> exists name | name in ChildNames(a) :: GroupReported(m, name, path, e, a, c)
  {
    if name :| name in ChildNames(a) && GroupReported(m, name, path, e, a, c) {
      assert name in names;
    }
  }

  lemma {:induction false} ChildrenTold(so: seq<Mismatch>, path: Path, e: Element, a: Element, c: Context, m: Mismatch)
    ensures Told(so, ChildrenAfter(so, path, e, a, c), m, ChildrenReported(m, path, e, a, c))
    decreases e, 3, 0
  {
    NoChildren(e);
    NoChildren(a);
    if !(ChildNames(e) == {} && ChildNames(a) != {} && c.config == NoUnexpectedKeys) {
      var names, missing := SortedKeys(ChildNames(a)), SortedKeys(ChildNames(e) - ChildNames(a));
      var grouped := GroupsAfter(so, names, |names|, path, e, a, c);
      GroupsTold(so, names, |names|, path, e, a, c, m);
      AnyGroup(m, names, path, e, a, c);
      MissingTold(grouped, missing, |missing|, path, m);
      NoneMissing(missing, ChildNames(e), ChildNames(a));
      ToldBoth(so, grouped, MissingAfter(grouped, missing, |missing|, path), m,
        FirstGroupsReported(m, names, |names|, path, e, a, c), |missing| > 0 && m == Mismatch(path, MissingChild));
    }
  }

  /** For every context, a mismatch is added exactly when the names, attributes, children or texts say so: nothing that
    * was found before is lost, and nothing else is reported. */
  lemma {:induction false} ElementTold(so: seq<Mismatch>, path: Path, e: Element, a: Element, c: Context, m: Mismatch)
    ensures Told(so, ElementAfter(so, path, e, a, c), m, ElementReported(m, path, e, a, c))
    decreases e, 4, 0
  {
    NameReported(path, e, a, c, m);
    if NamePasses(path, e, a, c) {
      var first := AttributesAfter(so, path, e, a, c);
      var second := ChildrenAfter(first, path, e, a, c);
      AttributesTold(so, path, e, a, c, m);
      ChildrenTold(first, path, e, a, c, m);
      TextTold(second, path, e, a, c, m);
    }
  }

  ghost predicate NothingReported(path: Path, e: Element, a: Element, c: Context) {
    forall m :: !ElementReported(m, path, e, a, c)
  }

  /** So an element is accepted when there is nothing to report. */
  lemma AcceptedExactly(path: Path, e: Element, a: Element, c: Context)
    ensures VerdictOf(ElementAfter([], path, e, a, c)).Ok? <==> NothingReported(path, e, a, c)
  {
    var found := ElementAfter([], path, e, a, c);
    if |found| == 0 {
      forall m ensures !ElementReported(m, path, e, a, c) {
        ElementTold([], path, e, a, c, m);
      }
    } else {
      assert found[0] in found;
      ElementTold([], path, e, a, c, found[0]);
      assert ElementReported(found[0], path, e, a, c);
    }
  }

  // ---- What each rule wants of an element

  predicate ElementFits(rule: MatchingRule, cascaded: bool, e: Element, a: Element, foreign: Foreign) {
    match rule
    case Type => a.name == e.name
    case Equality => a.name == e.name
    case Regex(_) => foreign.acceptsString(a.name.local, rule)
    case NotEmpty => |a.children| > 0
    case MinType(_) => cascaded || WithinBounds(rule, |a.children|)
    case MaxType(_) => cascaded || WithinBounds(rule, |a.children|)
    case MinMaxType(_, _) => cascaded || WithinBounds(rule, |a.children|)
    case _ => false
  }

  /** A single rule decides about an element by its name or the number of its children; rules for values refuse it. */
  lemma ElementRuleExactly(rule: MatchingRule, path: Path, e: Element, a: Element, c: Context)
    requires c.MatcherIsDefined(path) && c.SelectBestMatcher(path).rules == [rule]
    ensures ElementVerdict(path, e, a, c).Ok? <==> ElementFits(rule, c.SelectBestMatcher(path).cascaded, e, a, c.foreign)
  {
    var list := c.SelectBestMatcher(path);
    assert list.rules[0] == rule;
    assert ElementResults(list, e, a, c.foreign) == [ElementMatches(rule, e, a, list.cascaded, c.foreign)];
    CombinedExactly(path, list.logic, ElementResults(list, e, a, c.foreign));
  }
}
